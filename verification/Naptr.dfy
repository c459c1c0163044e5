/**
  DNS records: filtering NAPTR records by what the proxy supports and sorting the rest, and
  the sorted insertion of SRV records.
*/
module Naptr {
  import opened Words

  type u16 = x: int | 0 <= x < 0x1_0000

  datatype Rdata = Rdata(order: u16, pref: u16, flags: string, services: string, regexpLen: nat, replLen: nat)

  /** A record at its address; anything but a NAPTR record with data has none. */
  datatype Record = Record(at: nat, naptr: Option<Rdata>)

  /** Transports that are switched on, and whether the URI demands TLS. */
  datatype Config = Config(isSips: bool, tls: bool, tcp: bool, sctp: bool)

  function Lower(c: char): char {
    if 'A' <= c <= 'Z' then c - 'A' + 'a' else c
  }

  /** strncasecmp over the whole of `lower`. */
  predicate StartsWith(s: string, lower: string) {
    |lower| <= |s| && forall i :: 0 <= i < |lower| ==> Lower(s[i]) == lower[i]
  }

  /** The tests of filter_and_sort_naptr, as written. */
  predicate Passes(cfg: Config, r: Record) {
    && r.naptr.Some?
    && var n := r.naptr.value;
       && |n.flags| == 1 && (n.flags[0] == 's' || n.flags[0] == 'S')
       && n.replLen != 0 && n.regexpLen == 0
       && ((!cfg.isSips && |n.services| == 7 && StartsWith(n.services, "sip+d2"))
           || (cfg.tls && |n.services| == 8 && StartsWith(n.services, "sips+d2")))
       && var p := n.services[|n.services| - 1];
          && ((p == 'U' || p == 'u') || (cfg.tcp && (p == 'T' || p == 't')) || (cfg.sctp && (p == 'S' || p == 's')))
          && !(|n.services| == 8 && (p == 'U' || p == 'u'))
  }

  /** What passes, by service: SIP over UDP, TCP or SCTP unless TLS is demanded, and SIPS over
      TCP or SCTP if TLS is on. */
  lemma PassesIsSupported(cfg: Config, r: Record)
    requires r.naptr.Some?
    ensures var n := r.naptr.value;
      Passes(cfg, r) <==>
        && (n.flags == "s" || n.flags == "S") && n.replLen != 0 && n.regexpLen == 0
        && (|| (!cfg.isSips && (|| Service(n, "sip+d2u") || (cfg.tcp && Service(n, "sip+d2t"))
                                || (cfg.sctp && Service(n, "sip+d2s"))))
            || (cfg.tls && ((cfg.tcp && Service(n, "sips+d2t")) || (cfg.sctp && Service(n, "sips+d2s")))))
  {
  }

  predicate Service(n: Rdata, name: string) {
    |n.services| == |name| && StartsWith(n.services, name)
  }

  // --- order ---

  /** naptr_prio: order in the upper half of a word, preference in the lower. */
  function Prio(n: Rdata): u32 {
    n.order * 0x1_0000 + n.pref
  }

  predicate Before(a: Rdata, b: Rdata) {
    a.order < b.order || (a.order == b.order && a.pref <= b.pref)
  }

  /** The packed priority orders records by order and then preference. */
  lemma PrioIsLexicographic(a: Rdata, b: Rdata)
    ensures Prio(a) <= Prio(b) <==> Before(a, b)
  {
  }

  predicate AllNaptr(rs: seq<Record>) {
    forall i :: 0 <= i < |rs| ==> rs[i].naptr.Some?
  }

  predicate SortedByPrio(rs: seq<Record>)
    requires AllNaptr(rs)
  {
    forall i, j :: 0 <= i < j < |rs| ==> Prio(rs[i].naptr.value) <= Prio(rs[j].naptr.value)
  }

  lemma InsertSorted(rs: seq<Record>, r: Record, k: nat)
    requires AllNaptr(rs) && SortedByPrio(rs) && r.naptr.Some? && k <= |rs|
    requires forall i :: 0 <= i < k ==> Prio(rs[i].naptr.value) <= Prio(r.naptr.value)
    requires forall i :: k <= i < |rs| ==> Prio(r.naptr.value) <= Prio(rs[i].naptr.value)
    ensures var all := rs[..k] + [r] + rs[k..];
      AllNaptr(all) && SortedByPrio(all) && multiset(all) == multiset(rs) + multiset{r}
  {
    hide Prio;
    var all := rs[..k] + [r] + rs[k..];
    assert forall i :: 0 <= i < |all| ==> all[i] == if i < k then rs[i] else if i == k then r else rs[i - 1];
    assert rs == rs[..k] + rs[k..];
  }

  // --- the sort ---

  /** The new list and its last record. */
  ghost predicate Kept(cfg: Config, head: seq<Record>, last: Option<Record>) {
    && AllNaptr(head) && SortedByPrio(head)
    && last == (if head == [] then None else Some(head[|head| - 1]))
    && forall i :: 0 <= i < |head| ==> Passes(cfg, head[i])
  }

  /** Records that do not pass, last first. */
  function Rejected(cfg: Config, rs: seq<Record>): seq<Record> {
    if rs == [] then []
    else (if Passes(cfg, rs[|rs| - 1]) then [] else [rs[|rs| - 1]]) + Rejected(cfg, rs[..|rs| - 1])
  }

  /** Links one record that passes into the sorted list: in front, at the end, or before the
      first later one that is not smaller, the last record at the latest. */
  method Link(cfg: Config, head: seq<Record>, last: Option<Record>, l: Record)
    returns (head': seq<Record>, last': Option<Record>)
    requires Kept(cfg, head, last) && Passes(cfg, l)
    ensures Kept(cfg, head', last') && multiset(head') == multiset(head) + multiset{l}
  {
    PassesNaptr(cfg, l);
    hide Passes, Prio;
    var prio := Prio(l.naptr.value);
    ghost var k := 0;
    if head == [] {
      head', last' := [l], Some(l);
    } else if Prio(head[0].naptr.value) >= prio {
      head', last' := [l] + head, last;
    } else if prio >= Prio(last.value.naptr.value) {
      head', last' := head + [l], Some(l);
      k := |head|;
    } else {
      var it := 1;
      while it < |head| - 1 && prio > Prio(head[it].naptr.value)
        invariant 1 <= it <= |head| - 1
        invariant forall i :: 0 <= i < it ==> Prio(head[i].naptr.value) <= prio
      {
        it := it + 1;
      }
      head', last' := head[..it] + [l] + head[it..], last;
      k := it;
    }
    assert head' == head[..k] + [l] + head[k..];
    LinkKeeps(cfg, head, last, l, k);
  }

  lemma LinkKeeps(cfg: Config, head: seq<Record>, last: Option<Record>, l: Record, k: nat)
    requires Kept(cfg, head, last) && Passes(cfg, l) && l.naptr.Some? && k <= |head|
    requires forall i :: 0 <= i < k ==> Prio(head[i].naptr.value) <= Prio(l.naptr.value)
    requires k < |head| ==> Prio(l.naptr.value) <= Prio(head[k].naptr.value)
    ensures var all := head[..k] + [l] + head[k..];
      Kept(cfg, all, if k == |head| then Some(l) else last) && multiset(all) == multiset(head) + multiset{l}
  {
    hide Passes, Prio, SortedByPrio;
    LaterNotSmaller(head, l, k);
    InsertSorted(head, l, k);
    SplicePasses(cfg, head, l, k);
  }

  lemma LaterNotSmaller(head: seq<Record>, l: Record, k: nat)
    requires AllNaptr(head) && SortedByPrio(head) && l.naptr.Some?
    requires k < |head| ==> Prio(l.naptr.value) <= Prio(head[k].naptr.value)
    ensures forall i :: k <= i < |head| ==> Prio(l.naptr.value) <= Prio(head[i].naptr.value)
  {
  }

  lemma SplicePasses(cfg: Config, head: seq<Record>, l: Record, k: nat)
    requires k <= |head| && Passes(cfg, l) && forall i :: 0 <= i < |head| ==> Passes(cfg, head[i])
    ensures forall i :: 0 <= i < |head[..k] + [l] + head[k..]| ==> Passes(cfg, (head[..k] + [l] + head[k..])[i])
  {
  }

  lemma PassesNaptr(cfg: Config, r: Record)
    requires Passes(cfg, r)
    ensures r.naptr.Some?
  {
  }

  /** filter_and_sort_naptr: the two lists together are the input; the first holds exactly the
      records that pass, by order and preference, the second the others. */
  method FilterAndSort(cfg: Config, rs: seq<Record>) returns (head: seq<Record>, out: seq<Record>)
    ensures multiset(head) + multiset(out) == multiset(rs)
    ensures forall i :: 0 <= i < |head| ==> Passes(cfg, head[i])
    ensures AllNaptr(head) && forall i, j :: 0 <= i < j < |head| ==> Before(head[i].naptr.value, head[j].naptr.value)
    ensures out == Rejected(cfg, rs)
  {
    hide Passes, Kept, Rejected;
    head, out := [], [];
    var last: Option<Record> := None;
    NothingKept(cfg);
    RejectedSnoc(cfg, rs, 0);
    var i := 0;
    while i < |rs|
      invariant i <= |rs| && Kept(cfg, head, last) && out == Rejected(cfg, rs[..i])
      invariant multiset(head) + multiset(out) == multiset(rs[..i])
    {
      assert rs[..i + 1] == rs[..i] + [rs[i]];
      RejectedSnoc(cfg, rs, i);
      if Passes(cfg, rs[i]) {
        head, last := Link(cfg, head, last, rs[i]);
      } else {
        out := [rs[i]] + out;
      }
      i := i + 1;
    }
    assert rs[..i] == rs;
    KeptMeans(cfg, head, last);
  }

  lemma NothingKept(cfg: Config)
    ensures Kept(cfg, [], None)
  {
  }

  lemma KeptMeans(cfg: Config, head: seq<Record>, last: Option<Record>)
    requires Kept(cfg, head, last)
    ensures AllNaptr(head) && forall i :: 0 <= i < |head| ==> Passes(cfg, head[i])
    ensures forall i, j :: 0 <= i < j < |head| ==> Before(head[i].naptr.value, head[j].naptr.value)
  {
  }

  lemma RejectedSnoc(cfg: Config, rs: seq<Record>, k: nat)
    requires k <= |rs|
    ensures k == 0 ==> Rejected(cfg, rs[..k]) == []
    ensures k < |rs| ==>
              Rejected(cfg, rs[..k + 1]) == (if Passes(cfg, rs[k]) then [] else [rs[k]]) + Rejected(cfg, rs[..k])
  {
    hide Passes;
    if k < |rs| { assert rs[..k + 1][..k] == rs[..k]; }
  }

  lemma {:induction false} RejectedDoNotPass(cfg: Config, rs: seq<Record>)
    ensures forall i :: 0 <= i < |Rejected(cfg, rs)| ==> !Passes(cfg, Rejected(cfg, rs)[i])
  {
    hide Passes;
    if rs != [] {
      RejectedDoNotPass(cfg, rs[..|rs| - 1]);
    }
  }

  // --- SRV records ---

  datatype Srv = Srv(priority: u16, weight: u16, name: string)

  /** Lower priority first, heavier first among equals. */
  predicate SrvFirst(a: Srv, b: Srv) {
    a.priority < b.priority || (a.priority == b.priority && a.weight > b.weight)
  }

  predicate SrvSorted(ss: seq<Srv>) {
    forall i, j :: 0 <= i < j < |ss| ==> !SrvFirst(ss[j], ss[i])
  }

  /** The insertion of get_record, behind everything that does not come later. */
  method InsertSrv(ss: seq<Srv>, s: Srv) returns (r: seq<Srv>)
    requires SrvSorted(ss)
    ensures SrvSorted(r) && exists k: nat :: k <= |ss| && r == ss[..k] + [s] + ss[k..]
  {
    var k := 0;
    while k < |ss| && !SrvFirst(s, ss[k])
      invariant k <= |ss| && forall i :: 0 <= i < k ==> !SrvFirst(s, ss[i])
    {
      k := k + 1;
    }
    r := ss[..k] + [s] + ss[k..];
    SrvInserted(ss, s, k);
  }

  lemma SrvInserted(ss: seq<Srv>, s: Srv, k: nat)
    requires SrvSorted(ss) && k <= |ss|
    requires (forall i :: 0 <= i < k ==> !SrvFirst(s, ss[i])) && (k < |ss| ==> SrvFirst(s, ss[k]))
    ensures SrvSorted(ss[..k] + [s] + ss[k..])
  {
  }

}
