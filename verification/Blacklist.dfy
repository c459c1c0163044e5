/**
  Blacklist rules: the duplicate test, building a list of rules, merging it into a head that
  is kept sorted by expiry, and removing expired rules.
*/
module Blacklist {
  import opened Words
  import opened BlacklistLock

  /** Address and mask as 32-bit words: one for IPv4, four for IPv6. */
  datatype NetData = NetData(af: AddressFamily, ip: seq<bv32>, mask: seq<bv32>)

  type Net = n: NetData | |n.ip| == |n.mask| == WordsOf(n.af)
    witness NetData(Inet, [0], [0])

  function WordsOf(af: AddressFamily): nat {
    if af == Inet then 1 else 4
  }

  datatype Rule = Rule(flags: bv32, net: Net, port: int, proto: int, body: Option<string>)

  /** A list node at its address. */
  datatype Node = Node(at: nat, rule: Rule, expire: u32)

  function Masked(n: Net, r: nat): bv32
    requires r < |n.ip|
  {
    n.ip[r] & n.mask[r]
  }

  /** Both networks mask to the same words. */
  predicate SameClass(a: Net, b: Net) {
    a.af == b.af && forall r: nat :: r < |a.ip| ==> Masked(a, r) == Masked(b, r)
  }

  /** The part of a body that strncmp looks at. */
  function CString(s: string): string {
    if s == "" || s[0] == '\0' then "" else [s[0]] + CString(s[1..])
  }

  predicate SameBody(a: Option<string>, b: Option<string>) {
    match (a, b)
    case (None, None) => true
    case (Some(x), Some(y)) => |x| == |y| && CString(x) == CString(y)
    case _ => false
  }

  /** The key of the duplicate test. */
  predicate SameKey(a: Rule, b: Rule) {
    a.flags == b.flags && a.port == b.port && a.proto == b.proto && SameClass(a.net, b.net) && SameBody(a.body, b.body)
  }

  /** The duplicate test is an equivalence, so which of two rules is in the list already does
      not matter to it. */
  lemma SameKeyEquivalence(a: Rule, b: Rule, c: Rule)
    ensures SameKey(a, a)
    ensures SameKey(a, b) ==> SameKey(b, a)
    ensures SameKey(a, b) && SameKey(b, c) ==> SameKey(a, c)
  {
  }

  predicate Has(ns: seq<Node>, r: Rule) {
    exists i :: 0 <= i < |ns| && SameKey(ns[i].rule, r)
  }

  /** No two rules of the list are equal under the key. */
  predicate NoDups(ns: seq<Node>) {
    forall i, j :: 0 <= i < j < |ns| ==> !SameKey(ns[i].rule, ns[j].rule)
  }

  predicate SortedByExpiry(ns: seq<Node>) {
    forall i, j :: 0 <= i < j < |ns| ==> ns[i].expire <= ns[j].expire
  }

  /** The `last` pointer of a list. */
  function LastAt(ns: seq<Node>): Option<nat> {
    if ns == [] then None else Some(ns[|ns| - 1].at)
  }

  // --- what the operations do to a list ---

  /** Rules of `ns` that are not in `have`. */
  function Fresh(have: seq<Node>, ns: seq<Node>): seq<Node> {
    if ns == [] then []
    else Fresh(have, ns[..|ns| - 1]) + (if Has(have, ns[|ns| - 1].rule) then [] else [ns[|ns| - 1]])
  }

  function Stamped(ns: seq<Node>, e: u32): (r: seq<Node>)
    ensures |r| == |ns| && forall i :: 0 <= i < |ns| ==> r[i] == ns[i].(expire := e)
  {
    seq(|ns|, i requires 0 <= i < |ns| => ns[i].(expire := e))
  }

  /** First position whose rule expires at e or later. */
  function Slot(ns: seq<Node>, e: u32): (k: nat)
    ensures k <= |ns|
    ensures forall i :: 0 <= i < k ==> ns[i].expire < e
    ensures k < |ns| ==> ns[k].expire >= e
  {
    if ns == [] || ns[0].expire >= e then 0 else 1 + Slot(ns[1..], e)
  }

  /** Where add_list_to_head links a block that expires at e: in front, at the end if nothing
      expires later, else before the first rule that expires at e or later. */
  function MergeAt(ns: seq<Node>, e: u32): (k: nat)
    ensures k <= |ns|
  {
    if ns != [] && ns[0].expire < e && ns[|ns| - 1].expire <= e then |ns| else Slot(ns, e)
  }

  function Merge(ns: seq<Node>, block: seq<Node>, e: u32): seq<Node> {
    var k := MergeAt(ns, e);
    ns[..k] + Fresh(ns, block) + ns[k..]
  }

  /** The rules that have not expired at tick t. */
  function Alive(ns: seq<Node>, t: u32): seq<Node> {
    if ns == [] then []
    else Alive(ns[..|ns| - 1], t) + (if ns[|ns| - 1].expire > t then [ns[|ns| - 1]] else [])
  }

  // --- what they keep ---

  lemma {:induction false} FreshFacts(have: seq<Node>, ns: seq<Node>)
    requires NoDups(ns)
    ensures NoDups(Fresh(have, ns))
    ensures forall i :: 0 <= i < |Fresh(have, ns)| ==> Fresh(have, ns)[i] in ns && !Has(have, Fresh(have, ns)[i].rule)
    ensures forall i :: 0 <= i < |ns| ==> Has(have + Fresh(have, ns), ns[i].rule)
  {
    hide SameKey, Has;
    if ns != [] {
      var init, n := ns[..|ns| - 1], ns[|ns| - 1];
      FreshFacts(have, init);
      var fs := Fresh(have, init);
      var all := Fresh(have, ns);
      assert all == if Has(have, n.rule) then fs else fs + [n];
      assert ns == init + [n];
      hide Fresh;
      FreshLast(have, init, n, fs, all);
      FreshNoDups(init, n, fs, all);
    }
  }

  lemma FreshNoDups(init: seq<Node>, n: Node, fs: seq<Node>, all: seq<Node>)
    requires NoDups(init + [n]) && NoDups(fs) && (forall i :: 0 <= i < |fs| ==> fs[i] in init)
    requires all == fs || all == fs + [n]
    ensures NoDups(all)
  {
    hide SameKey;
    var ns := init + [n];
    assert ns[|init|] == n;
    forall i | 0 <= i < |fs|
      ensures !SameKey(fs[i].rule, n.rule)
    {
      var k :| 0 <= k < |init| && init[k] == fs[i];
      assert ns[k] == init[k];
    }
  }

  lemma FreshLast(have: seq<Node>, init: seq<Node>, n: Node, fs: seq<Node>, all: seq<Node>)
    requires forall i :: 0 <= i < |init| ==> Has(have + fs, init[i].rule)
    requires all == if Has(have, n.rule) then fs else fs + [n]
    ensures forall i :: 0 <= i < |init| ==> Has(have + all, init[i].rule)
    ensures Has(have + all, n.rule)
  {
    SameKeyEquivalence(n.rule, n.rule, n.rule);
    hide SameKey;
    forall r | Has(have + fs, r)
      ensures Has(have + all, r)
    {
      var k :| 0 <= k < |have + fs| && SameKey((have + fs)[k].rule, r);
      assert (have + all)[k] == (have + fs)[k];
    }
    if Has(have, n.rule) {
      var k :| 0 <= k < |have| && SameKey(have[k].rule, n.rule);
      assert (have + all)[k] == have[k];
    } else {
      assert (have + all)[|have + all| - 1] == n;
    }
  }

  /** A block goes where everything before expires no later and everything after no earlier. */
  lemma MergeAtBounds(ns: seq<Node>, e: u32)
    requires SortedByExpiry(ns)
    ensures forall i :: 0 <= i < MergeAt(ns, e) ==> ns[i].expire <= e
    ensures forall i :: MergeAt(ns, e) <= i < |ns| ==> ns[i].expire >= e
  {
  }

  lemma SplicedSorted(ns: seq<Node>, block: seq<Node>, k: nat, e: u32)
    requires SortedByExpiry(ns) && k <= |ns| && forall i :: 0 <= i < |block| ==> block[i].expire == e
    requires (forall i :: 0 <= i < k ==> ns[i].expire <= e) && forall i :: k <= i < |ns| ==> ns[i].expire >= e
    ensures SortedByExpiry(ns[..k] + block + ns[k..])
  {
  }

  lemma MergeNoDups(ns: seq<Node>, fs: seq<Node>, k: nat)
    requires k <= |ns| && NoDups(ns) && NoDups(fs) && forall i :: 0 <= i < |fs| ==> !Has(ns, fs[i].rule)
    ensures NoDups(ns[..k] + fs + ns[k..])
  {
  }

  /** Merging keeps the list sorted and free of duplicates, loses no rule, and adds each new
      rule, if only as a duplicate of one already there. */
  lemma MergeKeeps(ns: seq<Node>, block: seq<Node>, e: u32)
    requires SortedByExpiry(ns) && NoDups(ns) && NoDups(block)
    requires forall i :: 0 <= i < |block| ==> block[i].expire == e
    ensures SortedByExpiry(Merge(ns, block, e)) && NoDups(Merge(ns, block, e))
    ensures multiset(Merge(ns, block, e)) == multiset(ns) + multiset(Fresh(ns, block))
    ensures forall i :: 0 <= i < |block| ==> Has(Merge(ns, block, e), block[i].rule)
  {
    hide SameKey, Has, Fresh, MergeAt, NoDups, SortedByExpiry;
    var fs, k := Fresh(ns, block), MergeAt(ns, e);
    FreshFacts(ns, block);
    MergeAtBounds(ns, e);
    SplicedSorted(ns, fs, k, e);
    MergeNoDups(ns, fs, k);
    assert ns == ns[..k] + ns[k..];
    forall i | 0 <= i < |block|
      ensures Has(Merge(ns, block, e), block[i].rule)
    {
      HasInMerge(ns, fs, k, block[i].rule);
    }
  }

  lemma HasInMerge(ns: seq<Node>, fs: seq<Node>, k: nat, r: Rule)
    requires k <= |ns| && Has(ns + fs, r)
    ensures Has(ns[..k] + fs + ns[k..], r)
  {
    hide SameKey;
    var all := ns[..k] + fs + ns[k..];
    var i :| 0 <= i < |ns + fs| && SameKey((ns + fs)[i].rule, r);
    var j := if i < k then i else if i < |ns| then i + |fs| else i - |ns| + k;
    assert all[j] == (ns + fs)[i];
  }

  /** What delete_expired cuts off a sorted list is exactly what has expired. */
  lemma {:induction false} AliveIsSuffix(ns: seq<Node>, t: u32, k: nat)
    requires SortedByExpiry(ns) && k <= |ns|
    requires (forall i :: 0 <= i < k ==> ns[i].expire <= t) && (k < |ns| ==> ns[k].expire > t)
    ensures Alive(ns, t) == ns[k..]
  {
    if ns != [] {
      var init, n := ns[..|ns| - 1], ns[|ns| - 1];
      if k == |ns| {
        AliveIsSuffix(init, t, |init|);
      } else {
        AliveIsSuffix(init, t, k);
        assert ns[k..] == init[k..] + [n];
      }
    }
  }

  lemma SuffixKeeps(ns: seq<Node>, k: nat)
    requires k <= |ns| && SortedByExpiry(ns) && NoDups(ns)
    ensures SortedByExpiry(ns[k..]) && NoDups(ns[k..])
  {
  }

  lemma {:induction false} AliveKeeps(ns: seq<Node>, t: u32)
    requires SortedByExpiry(ns) && NoDups(ns)
    ensures SortedByExpiry(Alive(ns, t)) && NoDups(Alive(ns, t))
    ensures forall n :: n in Alive(ns, t) <==> n in ns && n.expire > t
  {
    hide SameKey, Alive;
    var k := FirstAlive(ns, t);
    AliveIsSuffix(ns, t, k);
    SuffixKeeps(ns, k);
    SuffixMembers(ns, t, k);
  }

  lemma SuffixMembers(ns: seq<Node>, t: u32, k: nat)
    requires SortedByExpiry(ns) && k <= |ns|
    requires (forall i :: 0 <= i < k ==> ns[i].expire <= t) && (k < |ns| ==> ns[k].expire > t)
    ensures forall n :: n in ns[k..] <==> n in ns && n.expire > t
  {
  }

  /** First position that has not expired at t. */
  function FirstAlive(ns: seq<Node>, t: u32): (k: nat)
    ensures k <= |ns|
    ensures forall i :: 0 <= i < k ==> ns[i].expire <= t
    ensures k < |ns| ==> ns[k].expire > t
  {
    if ns == [] || ns[0].expire > t then 0 else 1 + FirstAlive(ns[1..], t)
  }

  // --- whole runs ---

  /** An addition of a duplicate-free block stamped with its expiry, or a timer tick. */
  datatype Op = AddBlock(block: seq<Node>, e: u32) | Tick(t: u32)

  function Apply(ns: seq<Node>, op: Op): seq<Node> {
    match op
    case AddBlock(b, e) => Merge(ns, Stamped(b, e), e)
    case Tick(t) => Alive(ns, t)
  }

  function ApplyAll(ops: seq<Op>): seq<Node> {
    if ops == [] then [] else Apply(ApplyAll(ops[..|ops| - 1]), ops[|ops| - 1])
  }

  /** After every run of additions and ticks the list is sorted by expiry and free of
      duplicates. */
  lemma {:induction false} RunKeeps(ops: seq<Op>)
    requires forall i :: 0 <= i < |ops| && ops[i].AddBlock? ==> NoDups(ops[i].block)
    ensures SortedByExpiry(ApplyAll(ops)) && NoDups(ApplyAll(ops))
  {
    hide SameKey, Merge, Alive;
    if ops != [] {
      var init, op := ops[..|ops| - 1], ops[|ops| - 1];
      RunKeeps(init);
      match op
      case AddBlock(b, e) =>
        StampedNoDups(b, e);
        MergeKeeps(ApplyAll(init), Stamped(b, e), e);
      case Tick(t) => AliveKeeps(ApplyAll(init), t);
    }
  }

  lemma StampedNoDups(ns: seq<Node>, e: u32)
    requires NoDups(ns)
    ensures NoDups(Stamped(ns, e))
  {
  }

  // --- the lists as the program keeps them ---

  /** Addresses are distinct and `last` points at the end. */
  predicate Linked(ns: seq<Node>, last: Option<nat>) {
    last == LastAt(ns) && forall i, j :: 0 <= i < j < |ns| ==> ns[i].at != ns[j].at
  }

  /** ip_class_compare: 1 if the masked addresses agree, 0 if not, -1 across families. */
  method IpClassCompare(a: Net, b: Net) returns (r: int)
    ensures r == 1 <==> SameClass(a, b)
    ensures r == -1 <==> a.af != b.af
    ensures r == 1 || r == 0 || r == -1
  {
    hide Masked;
    if a.af != b.af { return -1; }
    var k := 0;
    while k < |a.ip|
      invariant k <= |a.ip| && forall i: nat :: i < k ==> Masked(a, i) == Masked(b, i)
    {
      if Masked(a, k) != Masked(b, k) {
        return 0;
      }
      k := k + 1;
    }
    r := 1;
  }

  /** The duplicate search of add_rule_to_list and rm_dups. */
  method Find(ns: seq<Node>, r: Rule) returns (found: bool)
    ensures found <==> Has(ns, r)
  {
    hide SameKey;
    var i := 0;
    while i < |ns|
      invariant i <= |ns| && forall j :: 0 <= j < i ==> !SameKey(ns[j].rule, r)
    {
      if SameKey(ns[i].rule, r) { return true; }
      i := i + 1;
    }
    found := false;
  }

  /** A list under construction: first and last pointer. */
  class Chain {
    var nodes: seq<Node>
    var last: Option<nat>

    constructor ()
      ensures Valid() && nodes == []
    {
      nodes, last := [], None;
    }

    ghost predicate Valid()
      reads this
    {
      Linked(nodes, last) && NoDups(nodes)
    }

    /** add_rule_to_list at a new address: an empty body counts as none; 1 for a duplicate. */
    method AddRule(rule: Rule, at: nat) returns (r: int)
      requires Valid() && forall i :: 0 <= i < |nodes| ==> nodes[i].at != at
      modifies this
      ensures Valid()
      ensures var fixed := if rule.body == Some("") then rule.(body := None) else rule;
        if old(Has(nodes, fixed)) then r == 1 && nodes == old(nodes)
        else r == 0 && nodes == old(nodes) + [Node(at, fixed, 0)]
    {
      hide SameKey;
      var fixed := if rule.body == Some("") then rule.(body := None) else rule;
      var found := Find(nodes, fixed);
      if found {
        return 1;
      }
      nodes := nodes + [Node(at, fixed, 0)];
      last := Some(at);
      r := 0;
    }

    /** rm_dups: unlinks every rule that `have` holds already, keeping `last` right. */
    method RemoveDups(have: seq<Node>)
      requires Valid()
      modifies this
      ensures Valid() && nodes == Fresh(have, old(nodes))
    {
      hide SameKey, Has, Fresh, Linked, LastAt, NoDups;
      ghost var was := nodes;
      var i := 0;
      ghost var done := 0;
      FreshSnoc(have, was, 0);
      while i < |nodes|
        invariant i <= |nodes| && done <= |was| && |nodes| - i == |was| - done
        invariant nodes[i..] == was[done..] && nodes[..i] == Fresh(have, was[..done])
        invariant Linked(nodes, last)
        decreases |nodes| - i
      {
        assert nodes[i] == nodes[i..][0] == was[done..][0] == was[done];
        assert nodes[i + 1..] == nodes[i..][1..] == was[done..][1..] == was[done + 1..];
        FreshSnoc(have, was, done);
        var found := Find(have, nodes[i].rule);
        if found {
          Unlinked(nodes, last, i);
          if i + 1 == |nodes| {
            last := if i > 0 then Some(nodes[i - 1].at) else None;
          }
          nodes := nodes[..i] + nodes[i + 1..];
        } else {
          assert nodes[..i + 1] == nodes[..i] + [nodes[i]];
          i := i + 1;
        }
        done := done + 1;
      }
      assert was[..done] == was && nodes[..i] == nodes;
      FreshFacts(have, was);
    }

    static lemma FreshSnoc(have: seq<Node>, ns: seq<Node>, k: nat)
      requires k <= |ns|
      ensures k == 0 ==> Fresh(have, ns[..k]) == []
      ensures k < |ns| ==>
        Fresh(have, ns[..k + 1]) == Fresh(have, ns[..k]) + (if Has(have, ns[k].rule) then [] else [ns[k]])
    {
      if k < |ns| { assert ns[..k + 1][..k] == ns[..k]; }
    }

    /** Unlinking node i; the last pointer moves to its predecessor if it was the last. */
    static lemma Unlinked(ns: seq<Node>, last: Option<nat>, i: nat)
      requires i < |ns| && Linked(ns, last)
      ensures Linked(ns[..i] + ns[i + 1..],
                     if i + 1 < |ns| then last else if i > 0 then Some(ns[i - 1].at) else None)
    {
    }
  }

  /** A head: its flags, rules and last pointer. */
  class Head {
    const flags: bv32
    var nodes: seq<Node>
    var last: Option<nat>

    /** create_bl_head with the rules collected so far; their expiry is still 0. */
    constructor (flags: bv32, list: Chain)
      requires list.Valid() && Creatable(flags) && forall i :: 0 <= i < |list.nodes| ==> list.nodes[i].expire == 0
      ensures Valid() && this.flags == flags && nodes == list.nodes
    {
      this.flags := flags;
      nodes, last := list.nodes, list.last;
    }

    ghost predicate Valid()
      reads this
    {
      Linked(nodes, last) && NoDups(nodes) && SortedByExpiry(nodes)
    }

    /** Why add_list_to_head refuses. */
    predicate RefusesList(block: seq<Node>, limit: u32) {
      block == [] || flags & BL_READONLY_LIST != 0 || (flags & BL_DO_EXPIRE != 0 && limit == 0)
    }

    /** The expiry add_list_to_head gives to new rules at tick `now`. */
    function ExpiryAt(now: u32, limit: u32): u32 {
      if flags & BL_DO_EXPIRE != 0 then Wrap(now + limit) else 0
    }

    /** add_list_to_head at tick `now`.  New rules that are not duplicates are linked in as one
        block: the result is the merge of the two lists.  With truncation the new rules replace
        the old ones; `ok` is false where the program then follows a null pointer. */
    method AddList(list: Chain, truncate: bool, now: u32, limit: u32) returns (r: int, ok: bool)
      requires Valid() && list.Valid() && Disjoint(nodes, list.nodes)
      requires flags & BL_DO_EXPIRE == 0 ==> forall i :: 0 <= i < |list.nodes| ==> list.nodes[i].expire == 0
      modifies this, list
      ensures ok <==> RefusesList(old(list.nodes), limit) || !truncate || |old(nodes)| % 2 == 0
      ensures ok ==> Valid() && (r == -1 || r == 0) && (r == -1 <==> RefusesList(old(list.nodes), limit))
      ensures r == -1 ==> nodes == old(nodes)
      ensures ok && r == 0 ==>
        var block, e := Stamped(old(list.nodes), ExpiryAt(now, limit)), ExpiryAt(now, limit);
        nodes == if truncate then block else Merge(old(nodes), block, e)
    {
      hide SameKey, Wrap, Merge, Fresh, Linked, NoDups, SortedByExpiry, Disjoint;
      ok := true;
      if list.nodes == [] || flags & BL_READONLY_LIST != 0 {
        return -1, true;
      }
      ghost var block := Stamped(list.nodes, ExpiryAt(now, limit));
      if flags & BL_DO_EXPIRE != 0 {
        if limit == 0 {
          return -1, true;
        }
        StampedLinked(list.nodes, list.last, nodes, ExpiryAt(now, limit));
        list.nodes := Stamped(list.nodes, ExpiryAt(now, limit));
      } else {
        assert list.nodes == block;
      }
      r := 0;
      if truncate {
        ghost var freed;
        ok, freed := Reload(list);
        StampedSorted(old(list.nodes), ExpiryAt(now, limit));
      } else {
        Insert(list, ExpiryAt(now, limit));
      }
    }

    /** The rest of add_list_to_head once it holds the list for writing. */
    method Insert(list: Chain, e: u32)
      requires Valid() && list.Valid() && Disjoint(nodes, list.nodes)
      requires forall i :: 0 <= i < |list.nodes| ==> list.nodes[i].expire == e
      modifies this, list
      ensures Valid() && nodes == Merge(old(nodes), old(list.nodes), e)
    {
      hide SameKey, Merge, Fresh, Linked, NoDups, SortedByExpiry, Disjoint;
      ghost var block := list.nodes;
      MergeKeeps(nodes, block, e);
      list.RemoveDups(nodes);
      FreshDisjoint(nodes, block);
      MergeSplices(nodes, block, e);
      if list.nodes != [] {
        Splice(list, e);
      }
    }

    /** reload_permanent_list once it holds the list for writing.  The loop that frees the old
        rules moves on twice a turn: it frees every other rule, and follows a null pointer if
        and only if their number is odd. */
    method Reload(list: Chain) returns (ok: bool, ghost freed: seq<Node>)
      modifies this
      ensures ok <==> |old(nodes)| % 2 == 0
      ensures ok ==> nodes == list.nodes && last == list.last && freed == EveryOther(old(nodes))
    {
      var p := 0;
      freed := [];
      assert nodes[0..] == nodes;
      while p < |nodes|
        invariant p <= |nodes| && p % 2 == 0 && nodes == old(nodes)
        invariant freed + EveryOther(nodes[p..]) == EveryOther(nodes)
        decreases |nodes| - p
      {
        var q := p;
        p := p + 1;
        if p == |nodes| {
          return false, freed;
        }
        assert nodes[q..][2..] == nodes[q + 2..] && nodes[q..][0] == nodes[q];
        freed := freed + [nodes[q]];
        p := p + 1;
      }
      nodes, last := list.nodes, list.last;
      ok := true;
    }

    /** The ways of linking a block in.  The one guarded by `AppendGuard` is left out: the
        guard never holds. */
    method Splice(list: Chain, e: u32)
      requires Linked(nodes, last) && Linked(list.nodes, list.last) && Disjoint(nodes, list.nodes)
      requires list.nodes != []
      modifies this
      ensures Linked(nodes, last)
      ensures nodes == Spliced(old(nodes), list.nodes, MergeAt(old(nodes), e))
    {
      hide MergeAt, Disjoint, Linked;
      SplicedLinked(nodes, last, list.nodes, list.last, MergeAt(nodes, e));
      SpliceCases(nodes, last, list.nodes, list.last, e);
      if nodes == [] {
        nodes, last := list.nodes, list.last;
      } else if nodes[0].expire >= e {
        nodes := list.nodes + nodes;
      } else if nodes[|nodes| - 1].expire <= e {
        nodes, last := nodes + list.nodes, list.last;
      } else {
        var p := 0;
        while nodes[p + 1].expire < e
          invariant 0 <= p < |nodes| - 1
          invariant forall i :: 0 <= i <= p ==> nodes[i].expire < e
          decreases |nodes| - p
        {
          p := p + 1;
        }
        SlotIs(nodes, e, p + 1);
        nodes := nodes[..p + 1] + list.nodes + nodes[p + 1..];
      }
    }

    /** delete_expired once it holds the list for writing: cuts off the expired front. */
    method DeleteExpired(ticks: u32)
      requires Valid()
      modifies this
      ensures Valid() && nodes == Alive(old(nodes), ticks)
      ensures forall n :: n in nodes <==> n in old(nodes) && n.expire > ticks
    {
      hide SameKey, Alive, Linked;
      AliveKeeps(nodes, ticks);
      var p := 0;
      while p < |nodes| && nodes[p].expire <= ticks
        invariant p <= |nodes| && forall i :: 0 <= i < p ==> nodes[i].expire <= ticks
      {
        p := p + 1;
      }
      AliveIsSuffix(nodes, ticks, p);
      SuffixLinked(nodes, last, p);
      if p == |nodes| && p != 0 {
        nodes, last := [], None;
      } else if p != 0 {
        nodes := nodes[p..];
      }
    }
  }

  /** The first rule of a list, the third, and so on. */
  function EveryOther(ns: seq<Node>): seq<Node> {
    if |ns| < 2 then ns else [ns[0]] + EveryOther(ns[2..])
  }

  /** A list of an even number of rules loses half of them to the loop, and keeps half allocated. */
  lemma {:induction false} EveryOtherIsHalf(ns: seq<Node>)
    requires |ns| % 2 == 0
    ensures |EveryOther(ns)| * 2 == |ns|
  {
    if ns != [] { EveryOtherIsHalf(ns[2..]); }
  }

  lemma StampedSorted(ns: seq<Node>, e: u32)
    ensures SortedByExpiry(Stamped(ns, e))
  {
  }

  predicate Disjoint(a: seq<Node>, b: seq<Node>) {
    forall i, j :: 0 <= i < |a| && 0 <= j < |b| ==> a[i].at != b[j].at
  }

  function Spliced(ns: seq<Node>, block: seq<Node>, k: nat): seq<Node>
    requires k <= |ns|
  {
    ns[..k] + block + ns[k..]
  }

  lemma MergeSplices(ns: seq<Node>, block: seq<Node>, e: u32)
    ensures Merge(ns, block, e) == Spliced(ns, Fresh(ns, block), MergeAt(ns, e))
    ensures Fresh(ns, block) == [] ==> Merge(ns, block, e) == ns
  {
  }

  lemma StampedLinked(ns: seq<Node>, last: Option<nat>, head: seq<Node>, e: u32)
    requires Linked(ns, last) && NoDups(ns) && Disjoint(head, ns)
    ensures Linked(Stamped(ns, e), last) && NoDups(Stamped(ns, e)) && Disjoint(head, Stamped(ns, e))
  {
  }

  lemma {:induction false} FreshDisjoint(have: seq<Node>, ns: seq<Node>)
    requires Disjoint(have, ns)
    ensures Disjoint(have, Fresh(have, ns))
  {
    hide Has;
    if ns != [] {
      FreshDisjoint(have, ns[..|ns| - 1]);
    }
  }

  lemma SplicedLinked(ns: seq<Node>, last: Option<nat>, block: seq<Node>, end: Option<nat>, k: nat)
    requires Linked(ns, last) && Linked(block, end) && Disjoint(ns, block) && k <= |ns| && block != []
    ensures Linked(Spliced(ns, block, k), if k == |ns| then end else last)
  {
  }

  lemma SlotIs(ns: seq<Node>, e: u32, k: nat)
    requires k < |ns| && (forall i :: 0 <= i < k ==> ns[i].expire < e) && ns[k].expire >= e
    requires ns[|ns| - 1].expire > e
    ensures MergeAt(ns, e) == k
  {
  }

  /** The branches that need no search, in terms of the splice position. */
  lemma SpliceCases(ns: seq<Node>, last: Option<nat>, block: seq<Node>, end: Option<nat>, e: u32)
    ensures ns == [] ==> MergeAt(ns, e) == 0 && Spliced(ns, block, 0) == block
    ensures ns != [] && ns[0].expire >= e ==> MergeAt(ns, e) == 0 && Spliced(ns, block, 0) == block + ns
    ensures ns != [] && ns[0].expire < e && ns[|ns| - 1].expire <= e ==> MergeAt(ns, e) == |ns|
    ensures Spliced(ns, block, |ns|) == ns + block
  {
  }

  /** `!head->flags & BL_DO_EXPIRE`, which negates the whole flag word first. */
  predicate AppendGuard(flags: bv32) {
    (if flags == 0 then 1 else 0) & BL_DO_EXPIRE != 0
  }

  /** A list that does not expire takes new rules in front: the branch that means to append
      them is not taken for any flags. */
  lemma PermanentListsGrowInFront(flags: bv32, ns: seq<Node>, block: seq<Node>)
    ensures !AppendGuard(flags)
    ensures Merge(ns, block, 0) == Fresh(ns, block) + ns
  {
  }

  lemma SuffixLinked(ns: seq<Node>, last: Option<nat>, k: nat)
    requires Linked(ns, last) && k <= |ns|
    ensures Linked(ns[k..], if k == |ns| then None else last)
  {
  }
}
