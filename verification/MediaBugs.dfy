/** The media bugs attached to a session: a singly linked list and the tap-only flag derived from it. */
module MediaBugs {
  import opened Ordering
  import opened Sequences
  import opened Wrappers

  datatype Status = Success | False | GenErr

  class Bug {
    const name: string
    const tapRead: bool
    const tapWrite: bool
    var next: Bug?
    var prune: bool
    var lock: bool
    /** The thread that may remove the bug, 0 for any. */
    var threadId: nat
    var ready: bool
    var destroyed: bool

    constructor (name: string, tapRead: bool, tapWrite: bool, prune: bool, lock: bool, threadId: nat)
      ensures this.name == name && this.tapRead == tapRead && this.tapWrite == tapWrite
      ensures this.prune == prune && this.lock == lock && this.threadId == threadId
      ensures next == null && !ready && !destroyed
    {
      this.name, this.tapRead, this.tapWrite := name, tapRead, tapWrite;
      this.prune, this.lock, this.threadId := prune, lock, threadId;
      next, ready, destroyed := null, false, false;
    }

    predicate NativeTap() {
      tapRead || tapWrite
    }

    /** Destroyed, and no longer held by anyone. */
    predicate Gone()
      reads this
    {
      destroyed && !ready && !lock && threadId == 0
    }

    /** Another thread holds the bug, or nobody may remove it. */
    predicate HeldBack(self: nat)
      reads this
    {
      (threadId != 0 && threadId != self) || lock
    }
  }

  /** The same as NoRepeats, one bug at a time. */
  ghost predicate Distinct(s: seq<Bug>) {
    s != [] ==> s[0] !in s[1..] && Distinct(s[1..])
  }

  lemma {:induction false} DistinctPairs(s: seq<Bug>)
    ensures Distinct(s) <==> NoRepeats(s)
  {
    if s != [] {
      DistinctPairs(s[1..]);
      assert NoRepeats(s[1..]) <==> forall p, q :: 1 <= p < q < |s| ==> s[p] != s[q] by {
        assert forall p :: 1 <= p < |s| ==> s[p] == s[1..][p - 1];
      }
    }
  }

  ghost function At(s: seq<Bug>, k: int): Bug? {
    if 0 <= k < |s| then s[k] else null
  }

  ghost predicate Chain(s: seq<Bug>)
    reads s
  {
    forall k {:trigger s[k].next} :: 0 <= k < |s| ==> s[k].next == At(s, k + 1)
  }

  ghost predicate HasName(s: seq<Bug>, name: string) {
    exists k :: 0 <= k < |s| && s[k].name != "" && SameIgnoringCase(name, s[k].name)
  }

  /** The bugs of s that are not in gone, in the order of s. */
  ghost function Without(s: seq<Bug>, gone: set<Bug>): (r: seq<Bug>)
    ensures |r| <= |s|
  {
    if s == [] then []
    else if s[|s| - 1] in gone then Without(s[..|s| - 1], gone)
    else Without(s[..|s| - 1], gone) + [s[|s| - 1]]
  }

  lemma {:induction false} WithoutHolds(s: seq<Bug>, gone: set<Bug>, b: Bug)
    ensures b in Without(s, gone) <==> b in s && b !in gone
  {
    if s != [] {
      WithoutHolds(s[..|s| - 1], gone, b);
      assert s == s[..|s| - 1] + [s[|s| - 1]];
    }
  }

  lemma KeepsOthers(s: seq<Bug>, x: Bug)
    ensures forall b {:trigger b in Without(s, {x})} {:trigger b in s} :: b in Without(s, {x}) <==> b in s && b != x
  {
    forall b ensures b in Without(s, {x}) <==> b in s && b != x {
      WithoutHolds(s, {x}, b);
    }
  }

  lemma {:induction false} WithoutJoin(s: seq<Bug>, t: seq<Bug>, gone: set<Bug>)
    ensures Without(s + t, gone) == Without(s, gone) + Without(t, gone)
  {
    if t == [] {
      assert s + t == s;
    } else {
      assert (s + t)[..|s + t| - 1] == s + t[..|t| - 1];
      WithoutJoin(s, t[..|t| - 1], gone);
    }
  }

  lemma {:induction false} WithoutNone(s: seq<Bug>, gone: set<Bug>)
    requires forall k :: 0 <= k < |s| ==> s[k] !in gone
    ensures Without(s, gone) == s
  {
    if s != [] {
      WithoutNone(s[..|s| - 1], gone);
    }
  }

  lemma {:induction false} WithoutTwice(s: seq<Bug>, b: Bug, gone: set<Bug>)
    requires b in gone
    ensures Without(Without(s, {b}), gone) == Without(s, gone)
  {
    if s != [] {
      var n := |s| - 1;
      WithoutTwice(s[..n], b, gone);
      WithoutJoin(Without(s[..n], {b}), [s[n]], gone);
    }
  }

  lemma {:induction false} SameWithout(s: seq<Bug>, gone: set<Bug>, x: Bug)
    requires x !in s
    ensures Without(s, gone) == Without(s, gone - {x})
  {
    if s != [] {
      SameWithout(s[..|s| - 1], gone, x);
    }
  }

  lemma {:induction false} RemovedCount(s: seq<Bug>, gone: set<Bug>)
    requires Distinct(s) && forall b :: b in gone ==> b in s
    ensures |Without(s, gone)| == |s| - |gone|
  {
    if s == [] {
      assert gone == {};
    } else {
      var x := s[0];
      assert s == [x] + s[1..];
      WithoutJoin([x], s[1..], gone);
      SameWithout(s[1..], gone, x);
      RemovedCount(s[1..], gone - {x});
      assert Without([x], gone) == if x in gone then [] else [x];
    }
  }

  ghost function Cut(s: seq<Bug>, k: nat): seq<Bug>
    requires k < |s|
  {
    s[..k] + s[k + 1..]
  }

  lemma CutGone(s: seq<Bug>, k: nat, gone: set<Bug>)
    requires k < |s| && s[k] in gone
    ensures Without(Cut(s, k), gone) == Without(s, gone)
  {
    var front, back := s[..k], s[k + 1..];
    assert s == front + [s[k]] + back;
    WithoutJoin(front + [s[k]], back, gone);
    WithoutJoin(front, back, gone);
    assert (front + [s[k]])[..k] == front;
  }

  lemma CutDistinct(s: seq<Bug>, k: nat)
    requires k < |s| && Distinct(s)
    ensures Distinct(Cut(s, k)) && s[k] !in Cut(s, k)
  {
    DistinctPairs(s);
    DistinctPairs(Cut(s, k));
  }

  lemma CutOnly(s: seq<Bug>, k: nat)
    requires k < |s| && Distinct(s)
    ensures Cut(s, k) == Without(s, {s[k]})
  {
    CutDistinct(s, k);
    CutGone(s, k, {s[k]});
    WithoutNone(Cut(s, k), {s[k]});
  }

  class Session {
    var bugs: Bug?
    /** SSF_MEDIA_BUG_TAP_ONLY */
    var tapOnly: bool
    /** SSF_DESTROYABLE */
    var destroyable: bool
    ghost var list: seq<Bug>
    ghost var members: set<Bug>

    ghost predicate Linked()
      reads this, members
    {
      Within(list, members) && Distinct(list) && Chain(list) && bugs == At(list, 0)
    }

    ghost predicate AllLive()
      reads this, members
    {
      && Within(list, members)
      && (forall k {:trigger list[k].ready} {:trigger list[k].destroyed} :: 0 <= k < |list| ==>
            list[k].ready && !list[k].destroyed)
    }

    ghost predicate TapsOnly()
      reads this
    {
      forall k :: 0 <= k < |list| ==> list[k].NativeTap()
    }

    /** A set flag means native taps only; every bug on the list is ready and none of them is destroyed. */
    ghost predicate Valid()
      reads this, members
    {
      Linked() && AllLive() && (tapOnly ==> TapsOnly())
    }

    constructor ()
      ensures Valid() && list == [] && members == {} && !tapOnly && !destroyable
    {
      bugs, tapOnly, destroyable, list, members := null, false, false, [], {};
    }

    /** Whether a bug of that function is on the list. */
    method HasFunction(name: string) returns (found: bool)
      requires Linked()
      ensures found <==> HasName(list, name)
    {
      var bp := bugs;
      ghost var i := 0;
      while bp != null
        invariant 0 <= i <= |list| && bp == At(list, i)
        invariant forall k :: 0 <= k < i ==> list[k].name == "" || !SameIgnoringCase(name, list[k].name)
        decreases |list| - i
      {
        if bp.name != "" && SameIgnoringCase(name, bp.name) {
          return true;
        }
        bp := bp.next;
        i := i + 1;
      }
      return false;
    }

    /** Recomputes the flag from its initial value. */
    method OnlyTapsFrom(initial: bool) returns (taps: bool)
      requires Linked() && AllLive()
      ensures taps <==> initial && TapsOnly()
    {
      taps := initial;
      var bp := bugs;
      ghost var i := 0;
      while bp != null
        invariant 0 <= i <= |list| && bp == At(list, i)
        invariant taps <==> initial && forall k :: 0 <= k < i ==> list[k].NativeTap()
        decreases |list| - i
      {
        if bp.ready && !bp.tapRead && !bp.tapWrite {
          taps := false;
        }
        bp := bp.next;
        i := i + 1;
      }
    }

    method Prepend(bug: Bug)
      requires Linked() && bug !in members
      modifies this`bugs, this`list, this`members, bug`next
      ensures Linked() && list == [bug] + old(list) && members == old(members) + {bug}
    {
      bug.next := bugs;
      bugs := bug;
      list := [bug] + list;
      members := members + {bug};
    }

    /** A bug that the caller did not name is called N/A and never refused for its name. */
    method Add(name: Option<string>, oneOnly: bool, tapRead: bool, tapWrite: bool, prune: bool, lock: bool, threadId: nat,
               mediaReady: bool, initOk: bool) returns (status: Status, bug: Bug?)
      requires Valid()
      modifies this`bugs, this`tapOnly, this`list, this`members
      ensures Valid()
      ensures status == if oneOnly && name.Some? && name.value != "" && HasName(old(list), name.value) then GenErr
                        else if !mediaReady then False
                        else if !initOk then GenErr
                        else Success
      ensures status != Success ==>
                bug == null && list == old(list) && members == old(members) && tapOnly == old(tapOnly)
      ensures status == Success ==>
                && bug != null && fresh(bug) && bug.name == (if name.Some? then name.value else "N/A")
                && bug.tapRead == tapRead && bug.tapWrite == tapWrite
                && bug.prune == prune && bug.lock == lock && bug.threadId == threadId && list == [bug] + old(list)
                && members == old(members) + {bug} && (tapOnly <==> TapsOnly())
    {
      bug := null;
      var punt := false;
      if name.Some? && name.value != "" && oneOnly {
        punt := HasFunction(name.value);
      }
      if punt {
        return GenErr, null;
      }
      if !mediaReady {
        return False, null;
      }
      var b := new Bug(if name.Some? then name.value else "N/A", tapRead, tapWrite, prune, lock, threadId);
      if !initOk {
        return GenErr, null;
      }
      b.ready := true;
      Prepend(b);
      tapOnly := OnlyTapsFrom(true);
      return Success, b;
    }

    /** Takes the bug at position k off the list; last is the one before it. */
    method Unlink(last: Bug?, bp: Bug, ghost k: nat)
      requires Linked() && k < |list| && bp == list[k] && last == At(list, k - 1)
      modifies this`bugs, this`list, members`next
      ensures Linked() && list == Cut(old(list), k) == Without(old(list), {bp}) && bp !in list
      ensures forall b :: b in members && b != last ==> b.next == old(b.next)
    {
      CutOnly(list, k);
      CutDistinct(list, k);
      DistinctPairs(list);
      if last != null {
        last.next := bp.next;
      } else {
        bugs := bp.next;
      }
      list := Cut(list, k);
    }

    method Drop(last: Bug?, bp: Bug, ghost k: nat)
      requires Valid() && k < |list| && bp == list[k] && last == At(list, k - 1)
      modifies this`bugs, this`list, members`next
      ensures Valid() && bp !in list
      ensures |list| == |old(list)| - 1 && list == Cut(old(list), k) == Without(old(list), {bp})
      ensures k > 0 ==> list != [] && list[0] == old(list)[0]
      ensures forall b :: b in members && b != last ==> b.next == old(b.next)
    {
      Unlink(last, bp, k);
    }

    static method Close(bp: Bug, destroy: bool, self: nat) returns (ok: bool)
      modifies bp`ready, bp`destroyed
      ensures ok == !bp.HeldBack(self)
      ensures bp.ready == (old(bp.ready) && !ok)
      ensures bp.destroyed == (old(bp.destroyed) || (ok && destroy))
    {
      if bp.HeldBack(self) {
        return false;
      }
      bp.ready := false;
      if destroy {
        bp.destroyed := true;
      }
      return true;
    }

    method FindOwned(bug: Bug, self: nat) returns (bp: Bug?, last: Bug?, ghost k: nat)
      requires Linked() && AllLive()
      ensures bp == null ==> bug !in list || (bug.threadId != 0 && bug.threadId != self)
      ensures bp != null ==> bp == bug && (bug.threadId == 0 || bug.threadId == self)
                             && k < |list| && list[k] == bug && last == At(list, k - 1)
    {
      bp, last, k := bugs, null, 0;
      while bp != null
        invariant 0 <= k <= |list| && bp == At(list, k) && last == At(list, k - 1)
        invariant forall i :: 0 <= i < k ==> list[i] != bug || (bug.threadId != 0 && bug.threadId != self)
        decreases |list| - k
      {
        if (bp.threadId == 0 || bp.threadId == self) && bp.ready && bp == bug {
          break;
        }
        last := bp;
        bp := bp.next;
        k := k + 1;
      }
    }

    method Detach(bug: Bug, self: nat) returns (bp: Bug?)
      requires Valid()
      modifies this`bugs, this`list, members`next
      ensures Valid()
      ensures bp == if bug in old(list) && (bug.threadId == 0 || bug.threadId == self) then bug else null
      ensures bp != null ==> bug !in list
      ensures list == if bp == null then old(list) else Without(old(list), {bug})
    {
      var last;
      ghost var k;
      bp, last, k := FindOwned(bug, self);
      if bp != null {
        Drop(last, bp, k);
      }
    }

    /**
     Removes one bug. Unless the bug is locked the flag is cleared, whatever bugs are left: the flag that
     would be recomputed starts out cleared.
     */
    method Remove(bug: Bug, self: nat) returns (status: Status)
      requires Valid()
      modifies this`bugs, this`tapOnly, this`list, members`next, bug`ready, bug`destroyed
      ensures Valid()
      ensures status == if bug in old(list) && !old(bug.HeldBack(self)) then Success else False
      ensures list == if status == Success then Without(old(list), {bug}) else old(list)
      ensures status == Success ==> bug.destroyed && !bug.ready
      ensures tapOnly == (old(bug.lock) && old(tapOnly))
    {
      if bug.lock {
        return False;
      }
      var bp := Detach(bug, self);
      tapOnly := OnlyTapsFrom(false);
      if bp == null {
        return False;
      }
      var ok := Close(bp, true, self);
      return if ok then Success else False;
    }

    /** Where the search for a pruned bug stops; last may be left over from an earlier search. */
    method FindPruned(last0: Bug?) returns (bp: Bug?, last: Bug?, ghost k: nat)
      requires Linked() && (last0 == null || (list != [] && !list[0].prune))
      ensures bp == null ==> forall i :: 0 <= i < |list| ==> !list[i].prune
      ensures bp != null ==> k < |list| && list[k] == bp && bp.prune && last == At(list, k - 1)
      ensures last == null || (list != [] && !list[0].prune)
    {
      bp, last, k := bugs, last0, 0;
      while bp != null
        invariant 0 <= k <= |list| && bp == At(list, k)
        invariant if k == 0 then last == last0 else last == list[k - 1]
        invariant forall i :: 0 <= i < k ==> !list[i].prune
        decreases |list| - k
      {
        if bp.prune {
          break;
        }
        last := bp;
        bp := bp.next;
        k := k + 1;
      }
    }

    /** Closes a pruned bug, no matter who held it. */
    static method Release(bp: Bug)
      modifies bp`ready, bp`destroyed, bp`lock, bp`threadId
      ensures bp.Gone()
    {
      bp.lock := false;
      bp.threadId := 0;
      var ok := Close(bp, true, 0);
    }

    /** Takes out the first pruned bug; marked holds all pruned bugs that are on the list. */
    method PruneOne(last0: Bug?, ghost marked: set<Bug>) returns (bp: Bug?, last: Bug?)
      requires Valid() && (last0 == null || (list != [] && !list[0].prune))
      requires forall b :: b in list && b.prune ==> b in marked
      modifies this`bugs, this`list, members`next, marked`ready, marked`destroyed, marked`lock, marked`threadId
      ensures Valid() && (last == null || (list != [] && !list[0].prune))
      ensures bp == null ==> list == old(list) && forall i :: 0 <= i < |list| ==> !list[i].prune
      ensures bp != null ==> bp in marked && bp.Gone() && list == Without(old(list), {bp}) && |list| == |old(list)| - 1
      ensures forall b :: b in marked && old(b.Gone()) ==> b.Gone()
    {
      ghost var k;
      bp, last, k := FindPruned(last0);
      if bp == null {
        return;
      }
      Drop(last, bp, k);
      Release(bp);
    }

    /** The bugs on the list that are marked for removal. */
    ghost function Marked(): set<Bug>
      reads this, members
      requires Within(list, members)
    {
      set b | b in members && b in list && b.prune
    }

    /** Removes the marked bugs, and only those, even if they are locked or belong to another thread. */
    method Prune() returns (ttl: nat)
      requires Valid()
      modifies this`bugs, this`list, members`next, Marked()`ready, Marked()`destroyed, Marked()`lock, Marked()`threadId
      ensures Valid()
      ensures list == Without(old(list), old(Marked()))
      ensures ttl == |old(Marked())| == |old(list)| - |list|
      ensures forall b :: b in old(Marked()) ==> b.Gone()
    {
      ttl := 0;
      ghost var before, marked := list, Marked();
      var last: Bug? := null;
      while true
        invariant Valid() && (last == null || (list != [] && !list[0].prune))
        invariant Without(list, marked) == Without(before, marked) && ttl == |before| - |list|
        invariant forall b :: b in list && b.prune ==> b in marked
        invariant forall b :: b in marked ==> b.Gone() || b in list
        decreases |list|
      {
        var bp;
        ghost var was := list;
        bp, last := PruneOne(last, marked);
        if bp == null {
          break;
        }
        ttl := ttl + 1;
        WithoutTwice(was, bp, marked);
        KeepsOthers(was, bp);
      }
      WithoutNone(list, marked);
      RemovedCount(before, marked);
    }

    /** Whether RemoveAllFunction takes the bug; an empty name stands for every function. */
    predicate Removable(b: Bug, name: string, self: nat)
      reads this`destroyable, b
    {
      (destroyable || !b.HeldBack(self)) && (name == "" || b.name == name)
    }

    ghost function AllRemovable(name: string, self: nat): set<Bug>
      reads this, members
      requires Within(list, members)
    {
      set b | b in members && b in list && Removable(b, name, self)
    }

    static method DestroyClosed(closed: Bug?, ghost shelf: seq<Bug>)
      requires Chain(shelf) && closed == At(shelf, 0)
      modifies shelf`destroyed
      ensures forall k :: 0 <= k < |shelf| ==> shelf[k].destroyed
    {
      var bp := closed;
      ghost var i := 0;
      while bp != null
        invariant 0 <= i <= |shelf| && bp == At(shelf, i)
        invariant forall k :: 0 <= k < i ==> shelf[k].destroyed
        decreases |shelf| - i
      {
        var next := bp.next;
        bp.destroyed := true;
        bp := next;
        i := i + 1;
      }
    }

    /** Puts a bug that was taken off the list in front of the closed ones. */
    method Shelve(bp: Bug, closed: Bug?, self: nat, ghost shelf: seq<Bug>)
      requires Valid() && bp in members && bp !in list
      requires Chain(shelf) && closed == At(shelf, 0) && bp !in shelf
      modifies bp`next, bp`ready, bp`destroyed
      ensures Valid() && Chain([bp] + shelf)
    {
      bp.next := closed;
      var ok := Close(bp, false, self);
    }

    ghost predicate OffList(shelf: seq<Bug>)
      reads this
    {
      forall b :: b in shelf ==> b in members && b !in list
    }

    method TakeOut(last: Bug?, bp: Bug, closed: Bug?, self: nat, ghost k: nat, ghost shelf: seq<Bug>, ghost marked: set<Bug>)
      requires Valid() && k < |list| && bp == list[k] && last == At(list, k - 1) && bp in marked
      requires Chain(shelf) && closed == At(shelf, 0) && OffList(shelf)
      modifies this`bugs, this`list, members`next, bp`ready, bp`destroyed
      ensures Valid() && Without(list, marked) == Without(old(list), marked) && |list| == |old(list)| - 1
      ensures At(list, k - 1) == last && At(list, k) == old(bp.next) && list[..k] == old(list)[..k]
      ensures Chain([bp] + shelf) && OffList([bp] + shelf)
      ensures forall b :: b in old(list) ==> b == bp || b in list
      ensures forall b :: b in list ==> b in old(list)
    {
      ghost var was := list;
      Drop(last, bp, k);
      Shelve(bp, closed, self, shelf);
      WithoutTwice(was, bp, marked);
      KeepsOthers(was, bp);
    }

    /** Moves the removable bugs, which are the marked ones, from the list to a list of closed ones. */
    method Collect(name: string, self: nat, ghost marked: set<Bug>) returns (closed: Bug?, ghost shelf: seq<Bug>)
      requires Valid() && forall b :: b in list ==> (b in marked <==> Removable(b, name, self))
      modifies this`bugs, this`list, members`next, members`ready, members`destroyed
      ensures Valid() && Chain(shelf) && closed == At(shelf, 0) && OffList(shelf)
      ensures list == Without(old(list), marked)
      ensures forall b :: b in marked && b in old(list) ==> b in shelf
    {
      ghost var before := list;
      shelf := [];
      closed := null;
      var last: Bug?, bp := null, bugs;
      ghost var k := 0;
      while bp != null
        invariant Valid() && 0 <= k <= |list| && bp == At(list, k) && last == At(list, k - 1)
        invariant forall b :: b in list[..k] ==> b !in marked
        invariant forall b :: b in list ==> b in before
        invariant Without(list, marked) == Without(before, marked)
        invariant Chain(shelf) && closed == At(shelf, 0) && OffList(shelf)
        invariant forall b :: b in before ==> b in shelf || b in list
        decreases |list| - k
      {
        var next := bp.next;
        assert bp in before;
        if !Removable(bp, name, self) {
          assert list[..k + 1] == list[..k] + [bp];
          last := bp;
          k := k + 1;
        } else {
          TakeOut(last, bp, closed, self, k, shelf, marked);
          closed := bp;
          shelf := [bp] + shelf;
        }
        bp := next;
      }
      assert list[..k] == list;
      WithoutNone(list, marked);
    }

    /**
     Removes every bug of a function that this thread may remove, or all of them from a session about to
     be destroyed. The flag is left as it is.
     */
    method RemoveAllFunction(name: string, self: nat) returns (status: Status)
      requires Valid()
      modifies this`bugs, this`list, members`next, members`ready, members`destroyed
      ensures Valid()
      ensures list == Without(old(list), old(AllRemovable(name, self)))
      ensures forall b :: b in old(AllRemovable(name, self)) ==> b.destroyed
      ensures status == if old(list) == [] then False else Success
    {
      status := if bugs == null then False else Success;
      var closed;
      ghost var shelf;
      closed, shelf := Collect(name, self, AllRemovable(name, self));
      DestroyClosed(closed, shelf);
    }
  }

  ghost predicate AllTaps(s: seq<Bug>) {
    forall k :: 0 <= k < |s| ==> s[k].NativeTap()
  }

  /** Two native taps, one of them removed: only a native tap is left, and the flag does not say so. */
  method StaleAfterRemove() returns (s: Session)
    ensures fresh(s) && s.Valid() && |s.list| == 1 && AllTaps(s.list) && !s.tapOnly
  {
    s := new Session();
    var status, a := s.Add(None, false, true, false, false, false, 0, true, true);
    var b;
    status, b := s.Add(None, false, true, false, false, false, 0, true, true);
    assert s.list == [b, a] && s.tapOnly;
    status := s.Remove(b, 0);
    RemovedCount([b, a], {b});
  }

  /** A native tap and another bug that is pruned: the same. */
  method StaleAfterPrune() returns (s: Session)
    ensures fresh(s) && s.Valid() && |s.list| == 1 && AllTaps(s.list) && !s.tapOnly
  {
    s := new Session();
    var status, a := s.Add(None, false, true, false, false, false, 0, true, true);
    var b;
    status, b := s.Add(None, false, false, false, true, false, 0, true, true);
    assert s.list == [b, a] && !b.NativeTap();
    ghost var marked := s.Marked();
    assert marked == {b};
    var _ := s.Prune();
    RemovedCount([b, a], {b});
    WithoutHolds([b, a], {b}, s.list[0]);
  }
}
