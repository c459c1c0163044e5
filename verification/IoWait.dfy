/**
  Descriptors watched with poll(): a hash indexed by descriptor that says what it is for, and
  the array given to poll(), of which the first fdNo entries are in use.
*/
module IoWait {
  datatype FdMap = NoFd | TcpMain | TcpConn(con: nat)

  datatype PollFd = PollFd(fd: int, ready: bool)

  function Fds(ps: seq<PollFd>): (r: seq<int>)
    ensures |r| == |ps| && forall i :: 0 <= i < |ps| ==> r[i] == ps[i].fd
  {
    seq(|ps|, i requires 0 <= i < |ps| => ps[i].fd)
  }

  predicate Distinct<T(==)>(s: seq<T>) {
    forall i, j :: 0 <= i < j < |s| ==> s[i] != s[j]
  }

  function Without<T>(s: seq<T>, k: nat): seq<T>
    requires k < |s|
  {
    s[..k] + s[k + 1..]
  }

  lemma WithoutMembers<T>(s: seq<T>, k: nat)
    requires k < |s| && Distinct(s)
    ensures Distinct(Without(s, k))
    ensures forall d :: d in Without(s, k) <==> d in s && d != s[k]
    ensures multiset(s) == multiset(Without(s, k)) + multiset{s[k]}
  {
    WithoutDistinct(s, k);
    WithoutIn(s, k);
    hide Distinct;
    assert s == s[..k] + [s[k]] + s[k + 1..];
  }

  lemma WithoutIn<T>(s: seq<T>, k: nat)
    requires k < |s| && Distinct(s)
    ensures forall d :: d in Without(s, k) <==> d in s && d != s[k]
  {
    var r := Without(s, k);
    assert forall i :: 0 <= i < |r| ==> r[i] == if i < k then s[i] else s[i + 1];
    forall d | d in s && d != s[k]
      ensures d in r
    {
      var i :| 0 <= i < |s| && s[i] == d;
      assert r[if i < k then i else i - 1] == d;
    }
  }

  lemma WithoutDistinct<T>(s: seq<T>, k: nat)
    requires k < |s| && Distinct(s)
    ensures Distinct(Without(s, k))
  {
    var r := Without(s, k);
    assert forall i :: 0 <= i < |r| ==> r[i] == if i < k then s[i] else s[i + 1];
  }

  /** Distinct sequences with the same members have the same length. */
  lemma SameSize(a: seq<int>, b: seq<int>)
    requires Distinct(a) && Distinct(b) && forall x :: x in a <==> x in b
    ensures |a| == |b|
  {
    SetSize(a);
    SetSize(b);
    assert (set x | x in a) == set x | x in b;
  }

  lemma {:induction false} SetSize(a: seq<int>)
    requires Distinct(a)
    ensures |set x | x in a| == |a|
  {
    if a != [] {
      var init, y := a[..|a| - 1], a[|a| - 1];
      SetSize(init);
      assert y !in init;
      assert (set x | x in a) == (set x | x in init) + {y};
    }
  }

  /** The descriptors in the array are distinct and are exactly those in the hash. */
  predicate Consistent(hash: seq<FdMap>, fds: seq<int>) {
    && Distinct(fds)
    && (forall fd :: fd in fds ==> 0 <= fd < |hash| && hash[fd] != NoFd)
    && (forall fd :: 0 <= fd < |hash| && hash[fd] != NoFd ==> fd in fds)
  }

  /** A free entry in the hash means room in the array. */
  lemma RoomLeft(hash: seq<FdMap>, fds: seq<int>, fd: nat)
    requires Consistent(hash, fds) && fd < |hash| && hash[fd] == NoFd
    ensures |fds| < |hash|
  {
    var used := set x | x in fds;
    SetSize(fds);
    assert used <= Below(|hash|) - {fd};
    SubsetSize(used, Below(|hash|) - {fd});
  }

  function Below(n: nat): (r: set<int>)
    ensures |r| == n && forall x :: x in r <==> 0 <= x < n
  {
    if n == 0 then {} else Below(n - 1) + {n - 1}
  }

  lemma SubsetSize(a: set<int>, b: set<int>)
    requires a <= b
    ensures |a| <= |b|
  {
    assert b == a + (b - a);
  }

  lemma AddConsistent(hash: seq<FdMap>, fds: seq<int>, fd: nat, e: FdMap)
    requires Consistent(hash, fds) && fd < |hash| && hash[fd] == NoFd && e != NoFd
    ensures Consistent(hash[fd := e], fds + [fd])
  {
  }

  lemma DelConsistent(hash: seq<FdMap>, fds: seq<int>, k: nat)
    requires Consistent(hash, fds) && k < |fds| && 0 <= fds[k] < |hash|
    ensures Consistent(hash[fds[k] := NoFd], Without(fds, k))
  {
    WithoutMembers(fds, k);
    hide Distinct, Without;
  }

  /** Taking a used entry out of the hash alone leaves its descriptor behind in the array. */
  lemma LossInconsistent(hash: seq<FdMap>, fds: seq<int>, fd: nat)
    requires Consistent(hash, fds) && fd < |hash| && hash[fd] != NoFd
    ensures !Consistent(hash[fd := NoFd], fds)
  {
  }

  class Handler {
    const hash: array<FdMap>
    const fds: array<PollFd>
    var fdNo: nat

    constructor (max: nat)
      ensures Valid() && fresh(hash) && fresh(fds) && hash.Length == max && Watched() == []
    {
      hash, fds, fdNo := new FdMap[max](_ => NoFd), new PollFd[max](_ => PollFd(-1, false)), 0;
    }

    /** Sizes of the buffers. */
    ghost predicate Sized()
      reads this
    {
      hash.Length == fds.Length && fdNo <= fds.Length
    }

    ghost function Watched(): seq<int>
      requires Sized()
      reads this, fds
    {
      Fds(fds[..fdNo])
    }

    ghost predicate Valid()
      reads this, hash, fds
    {
      Sized() && Consistent(hash[..], Watched())
    }

    /** Every entry in use is that of a hashed descriptor, and no other has the same. */
    lemma EntryAt(k: nat)
      requires Valid() && k < fdNo
      ensures 0 <= fds[k].fd < hash.Length && hash[fds[k].fd] != NoFd
      ensures forall j :: 0 <= j < fdNo && fds[j].fd == fds[k].fd ==> j == k
    {
      assert forall j :: 0 <= j < fdNo ==> fds[j].fd == Watched()[j];
      assert fds[k].fd in Watched();
    }

    lemma Room(fd: nat)
      requires Valid() && fd < hash.Length && hash[fd] == NoFd
      ensures fdNo < fds.Length
    {
      RoomLeft(hash[..], Watched(), fd);
    }

    /** io_watch_add for poll(); `flagsSet` is the outcome of the fcntl calls.  On every error
        after the look-up the entry is erased, also if it was in use: exactly then the hash
        and the array no longer agree.  No other number than -1 is checked: `inside` is false
        where the program looks up an entry outside its hash. */
    method WatchAdd(fd: int, e: FdMap, flagsSet: bool) returns (r: int, inside: bool)
      requires Valid() && e != NoFd
      modifies this, hash, fds
      ensures Sized()
      ensures inside <==> fd == -1 || old(fdNo) >= fds.Length || 0 <= fd < hash.Length
      ensures !inside ==> r == -1
      ensures inside ==> (r == 0 <==> fd != -1 && old(fdNo) < fds.Length && old(hash[fd]) == NoFd && flagsSet)
      ensures r == 0 || r == -1
      ensures r == 0 ==>
                hash[..] == old(hash[..])[fd := e] && Watched() == old(Watched()) + [fd] && fdNo == old(fdNo) + 1
      ensures r == 0 ==> fds[fdNo - 1] == PollFd(fd, false) && fds[..fdNo - 1] == old(fds[..fdNo])
      ensures r == -1 ==> fdNo == old(fdNo) && fds[..fdNo] == old(fds[..fdNo])
      ensures inside && r == -1 ==>
        hash[..] == if fd == -1 || fdNo >= fds.Length then old(hash[..]) else old(hash[..])[fd := NoFd]
      ensures inside ==> (Valid() <==> fd == -1 || old(fdNo) >= fds.Length || old(hash[fd]) == NoFd)
    {
      hide Consistent;
      ghost var h, ws := hash[..], Watched();
      inside := true;
      if fd == -1 || fdNo >= fds.Length {
        return -1, true;
      }
      if fd < 0 || fd >= hash.Length {
        return -1, false;
      }
      if hash[fd] != NoFd {
        LossInconsistent(h, ws, fd);
        hash[fd] := NoFd;
        assert hash[..] == h[fd := NoFd];
        return -1, true;
      }
      hash[fd] := e;
      fds[fdNo] := PollFd(fd, false);
      assert fds[..fdNo] == old(fds[..fdNo]);
      if !flagsSet {
        hash[fd] := NoFd;
        assert hash[..] == h[fd := NoFd] == h;
        return -1, true;
      }
      fdNo := fdNo + 1;
      AddConsistent(h, ws, fd, e);
      assert hash[..] == h[fd := e];
      assert Watched() == ws + [fd];
      r := 0;
    }

    /** A descriptor that is added twice, with room for it, leaves hash and array in disagreement. */
    static method WatchTwice(e: FdMap) returns (h: Handler)
      requires e != NoFd
      ensures fresh(h) && h.Sized() && !h.Valid()
    {
      h := new Handler(3);
      var _, _ := h.WatchAdd(2, e, true);
      assert h.hash[..][2] == e;
      var _, _ := h.WatchAdd(2, e, true);
    }

    /** io_watch_del: the position is searched for if it is not given, and the array closed up. */
    method WatchDel(fd: int, idx: int) returns (r: int, ghost k: nat)
      requires Valid() && idx >= -1 && (idx >= 0 ==> idx < fdNo && fds[idx].fd == fd)
      modifies this, hash, fds
      ensures Valid()
      ensures r == 0 <==> 0 <= fd < hash.Length && old(hash[fd]) != NoFd
      ensures r != 0 ==> r == -1 && hash[..] == old(hash[..]) && fdNo == old(fdNo) && fds[..fdNo] == old(fds[..fdNo])
      ensures r == 0 ==> hash[..] == old(hash[..])[fd := NoFd] && k < old(fdNo) && old(fds[k].fd) == fd
      ensures r == 0 ==> fdNo == old(fdNo) - 1 && fds[..fdNo] == old(fds[..k] + fds[k + 1..fdNo])
      ensures r == 0 && idx >= 0 ==> k == idx
    {
      hide Consistent;
      ghost var h, ws, ps := hash[..], Watched(), fds[..fdNo];
      k := 0;
      if fd < 0 || fd >= hash.Length || hash[fd] == NoFd {
        return -1, 0;
      }
      hide Without;
      HashedIsWatched(h, ws, fd);
      var at := Position(fd, idx);
      hash[fd] := NoFd;
      assert hash[..] == h[fd := NoFd];
      assert fds[..at] == ps[..at] && fds[at + 1..fdNo] == ps[at + 1..];
      CloseUp(at);
      fdNo := fdNo - 1;
      assert fds[..fdNo] == ps[..at] + ps[at + 1..];
      assert ws[at] == fd;
      DelConsistent(h, ws, at);
      FdsWithout(ps, at);
      r, k := 0, at;
    }

    /** The given index, or the one found. */
    method Position(fd: int, idx: int) returns (k: nat)
      requires Sized() && fd in Watched() && idx >= -1 && (idx >= 0 ==> idx < fdNo && fds[idx].fd == fd)
      ensures k < fdNo && fds[k].fd == fd && (idx >= 0 ==> k == idx)
    {
      if idx != -1 {
        return idx;
      }
      k := 0;
      while fds[k].fd != fd
        invariant 0 <= k < fdNo && forall i :: 0 <= i < k ==> fds[i].fd != fd
        decreases fdNo - k
      {
        ghost var i :| 0 <= i < fdNo && Watched()[i] == fd;
        k := k + 1;
      }
    }

    static lemma FdsWithout(ps: seq<PollFd>, k: nat)
      requires k < |ps|
      ensures Fds(ps[..k] + ps[k + 1..]) == Without(Fds(ps), k)
    {
    }

    static lemma HashedIsWatched(h: seq<FdMap>, ws: seq<int>, fd: nat)
      requires Consistent(h, ws) && fd < |h| && h[fd] != NoFd
      ensures fd in ws
    {
    }

    /** The memmove of the entries behind k. */
    method CloseUp(k: nat)
      requires Sized() && k < fdNo
      modifies fds
      ensures fds[..fdNo - 1] == old(fds[..k] + fds[k + 1..fdNo])
    {
      var i := k;
      while i < fdNo - 1
        invariant k <= i <= fdNo - 1
        invariant forall j :: 0 <= j < k ==> fds[j] == old(fds[j])
        invariant forall j :: k <= j < i ==> fds[j] == old(fds[j + 1])
        invariant forall j :: i <= j < fdNo ==> fds[j] == old(fds[j])
      {
        fds[i] := fds[i + 1];
        i := i + 1;
      }
      ghost var was := old(fds[..k] + fds[k + 1..fdNo]);
      assert forall j :: 0 <= j < fdNo - 1 ==> fds[j] == was[j];
    }
  }
}
