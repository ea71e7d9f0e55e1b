/** Whole runs of the operations on a session's media bugs, and what they make of the tap-only flag. */
module MediaBugRuns {
  import opened Ordering
  import opened Sequences
  import opened Wrappers
  import opened MediaBugs

  /** A bug as the history shows it: its number is its position among all bugs ever attached. */
  datatype Attr = Attr(name: string, tap: bool, lock: bool, threadId: nat, prune: bool)

  /** All bugs ever attached, and the numbers of those on the list. */
  datatype State = State(all: seq<Attr>, listed: seq<nat>, tapOnly: bool, destroyable: bool)

  datatype Op =
    | Add(name: Option<string>, oneOnly: bool, tapRead: bool, tapWrite: bool, prune: bool, lock: bool, threadId: nat,
          mediaReady: bool, initOk: bool)
    | Mark(k: nat)
    | Remove(k: nat, self: nat)
    | Prune
    | RemoveAll(whose: string, self: nat)
    | Destroyable

  /** What an operation hands back. */
  datatype Answer = Nothing | Returned(status: Status) | Pruned(count: int)

  const NEW := State([], [], false, false)

  predicate InBounds(all: seq<Attr>, listed: seq<nat>) {
    forall k :: 0 <= k < |listed| ==> listed[k] < |all|
  }

  predicate AllTap(s: State)
    requires InBounds(s.all, s.listed)
  {
    forall id :: id in s.listed ==> s.all[id].tap
  }

  ghost predicate Named(s: State, name: string)
    requires InBounds(s.all, s.listed)
  {
    exists id :: id in s.listed && s.all[id].name != "" && SameIgnoringCase(name, s.all[id].name)
  }

  predicate HeldBack(a: Attr, self: nat) {
    (a.threadId != 0 && a.threadId != self) || a.lock
  }

  /** Whether an operation takes the bug with a number off the list. */
  predicate Takes(s: State, op: Op, id: nat)
    requires id < |s.all|
  {
    var a := s.all[id];
    match op
    case Remove(k, self) => id == k && !HeldBack(a, self)
    case Prune => a.prune
    case RemoveAll(whose, self) => (s.destroyable || !HeldBack(a, self)) && (whose == "" || a.name == whose)
    case _ => false
  }

  function Kept(s: State, op: Op, ids: seq<nat>): (r: seq<nat>)
    requires InBounds(s.all, ids)
    ensures InBounds(s.all, r) && forall id :: id in r ==> id in ids
  {
    if ids == [] then []
    else
      var n := |ids| - 1;
      if Takes(s, op, ids[n]) then Kept(s, op, ids[..n]) else Kept(s, op, ids[..n]) + [ids[n]]
  }

  ghost function Refusal(s: State, op: Op): Status
    requires InBounds(s.all, s.listed) && op.Add?
  {
    if op.oneOnly && op.name.Some? && op.name.value != "" && Named(s, op.name.value) then GenErr
    else if !op.mediaReady then False
    else if !op.initOk then GenErr
    else Success
  }

  function Attributes(op: Op): Attr
    requires op.Add?
  {
    Attr(if op.name.Some? then op.name.value else "N/A", op.tapRead || op.tapWrite, op.lock, op.threadId, op.prune)
  }

  /** Pruning a bug lets go of it. */
  function LetGo(s: State): (all: seq<Attr>)
    requires InBounds(s.all, s.listed)
    ensures |all| == |s.all|
  {
    seq(|s.all|, id requires 0 <= id < |s.all| =>
      if id in s.listed && s.all[id].prune then s.all[id].(lock := false, threadId := 0) else s.all[id])
  }

  ghost function After(s: State, op: Op): (r: State)
    requires InBounds(s.all, s.listed)
    ensures InBounds(r.all, r.listed)
  {
    match op
    case Add(_, _, _, _, _, _, _, _, _) =>
      if Refusal(s, op) != Success then s
      else
        var t := State(s.all + [Attributes(op)], [|s.all|] + s.listed, false, s.destroyable);
        t.(tapOnly := AllTap(t))
    case Mark(k) => if k < |s.all| then s.(all := s.all[k := s.all[k].(prune := true)]) else s
    case Remove(k, _) => if k >= |s.all| then s else s.(listed := Kept(s, op, s.listed), tapOnly := s.tapOnly && !SetsFlag(s, op))
    case Prune => s.(all := LetGo(s), listed := Kept(s, op, s.listed))
    case RemoveAll(_, _) => s.(listed := Kept(s, op, s.listed))
    case Destroyable => s.(destroyable := true)
  }

  ghost function AnswerOf(s: State, op: Op): Answer
    requires InBounds(s.all, s.listed)
  {
    match op
    case Add(_, _, _, _, _, _, _, _, _) => Returned(Refusal(s, op))
    case Remove(k, self) =>
      if k >= |s.all| then Nothing
      else Returned(if k in s.listed && !HeldBack(s.all[k], self) then Success else False)
    case Prune => Pruned(|s.listed| - |Kept(s, op, s.listed)|)
    case RemoveAll(_, _) => Returned(if s.listed == [] then False else Success)
    case _ => Nothing
  }

  /** A successful Add and the Remove of an unlocked bug, even one that is on no list, set the flag anew. */
  ghost predicate SetsFlag(s: State, op: Op)
    requires InBounds(s.all, s.listed)
  {
    match op
    case Add(_, _, _, _, _, _, _, _, _) => Refusal(s, op) == Success
    case Remove(k, _) => k < |s.all| && !s.all[k].lock
    case _ => false
  }

  ghost function Replay(ops: seq<Op>): (s: State)
    ensures InBounds(s.all, s.listed)
  {
    if ops == [] then NEW else After(Replay(ops[..|ops| - 1]), ops[|ops| - 1])
  }

  ghost function Answers(ops: seq<Op>): seq<Answer> {
    if ops == [] then []
    else
      var front := ops[..|ops| - 1];
      Answers(front) + [AnswerOf(Replay(front), ops[|ops| - 1])]
  }

  // ---- The flag ----

  /** What is left of native taps are native taps. */
  lemma TapsStay(s: State, op: Op)
    requires InBounds(s.all, s.listed) && AllTap(s) && !op.Add?
    ensures AllTap(After(s, op))
  {
    assert forall id :: id in After(s, op).listed ==> id in s.listed;
  }

  /** A set flag means native taps only. */
  lemma {:induction false} FlagIsSound(ops: seq<Op>)
    ensures Replay(ops).tapOnly ==> AllTap(Replay(ops))
  {
    if ops != [] {
      var front, op := ops[..|ops| - 1], ops[|ops| - 1];
      FlagIsSound(front);
      if AllTap(Replay(front)) && !op.Add? {
        TapsStay(Replay(front), op);
      }
    }
  }

  /**
   A flag that says exactly whether there are only native taps goes on to do so, unless an unlocked bug is
   removed and only native taps are left, or other operations take the last other bug away.
   */
  lemma StaysExact(s: State, op: Op)
    requires InBounds(s.all, s.listed) && (s.tapOnly <==> AllTap(s))
    ensures (After(s, op).tapOnly <==> AllTap(After(s, op))) <==>
            !(AllTap(After(s, op)) && !op.Add? && (SetsFlag(s, op) || !AllTap(s)))
  {
    if AllTap(s) && !op.Add? {
      TapsStay(s, op);
    }
  }

  /** The last operation that set the flag was an Add, which saw native taps only. */
  ghost predicate SetByAdd(ops: seq<Op>, i: nat) {
    && i < |ops| && ops[i].Add? && SetsFlag(Replay(ops[..i]), ops[i]) && AllTap(Replay(ops[..i + 1]))
    && forall j :: i < j < |ops| ==> !SetsFlag(Replay(ops[..j]), ops[j])
  }

  lemma {:induction false} FlagSetByAdd(ops: seq<Op>)
    ensures Replay(ops).tapOnly <==> exists i :: SetByAdd(ops, i)
  {
    if ops != [] {
      var front := ops[..|ops| - 1];
      if SetsFlag(Replay(front), ops[|ops| - 1]) {
        SetLast(ops);
      } else {
        FlagSetByAdd(front);
        forall i: nat ensures SetByAdd(front, i) <==> SetByAdd(ops, i) {
          SameSetting(ops, i);
        }
      }
    }
  }

  lemma AddSets(s: State, op: Op)
    requires InBounds(s.all, s.listed) && SetsFlag(s, op)
    ensures After(s, op).tapOnly <==> op.Add? && AllTap(After(s, op))
  {
  }

  lemma SetLast(ops: seq<Op>)
    requires ops != [] && SetsFlag(Replay(ops[..|ops| - 1]), ops[|ops| - 1])
    ensures Replay(ops).tapOnly <==> exists i :: SetByAdd(ops, i)
  {
    var n := |ops| - 1;
    AddSets(Replay(ops[..n]), ops[n]);
    assert ops[..n + 1] == ops;
    if Replay(ops).tapOnly {
      assert SetByAdd(ops, n);
    }
    if i :| SetByAdd(ops, i) {
      assert i == n;
    }
  }

  lemma SameSetting(ops: seq<Op>, i: nat)
    requires ops != [] && !SetsFlag(Replay(ops[..|ops| - 1]), ops[|ops| - 1])
    ensures SetByAdd(ops[..|ops| - 1], i) <==> SetByAdd(ops, i)
  {
    var front := ops[..|ops| - 1];
    assert forall j :: 0 <= j <= |front| ==> front[..j] == ops[..j];
    assert forall j :: 0 <= j < |front| ==> front[j] == ops[j];
  }

  // ---- The list and its history ----

  ghost predicate Is(b: Bug, a: Attr)
    reads b
  {
    b.name == a.name && b.NativeTap() == a.tap && b.lock == a.lock && b.threadId == a.threadId && b.prune == a.prune
  }

  ghost function Pick(added: seq<Bug>, ids: seq<nat>): (r: seq<Bug>)
    requires forall k :: 0 <= k < |ids| ==> ids[k] < |added|
    ensures |r| == |ids| && forall k :: 0 <= k < |ids| ==> r[k] == added[ids[k]]
  {
    seq(|ids|, k requires 0 <= k < |ids| => added[ids[k]])
  }

  /** Taking out bugs and taking out their numbers is the same. */
  lemma {:induction false} PickKept(added: seq<Bug>, s: State, op: Op, ids: seq<nat>, gone: set<Bug>)
    requires |added| == |s.all| && InBounds(s.all, ids)
    requires forall id :: id in ids ==> (added[id] in gone <==> Takes(s, op, id))
    ensures Without(Pick(added, ids), gone) == Pick(added, Kept(s, op, ids))
  {
    if ids != [] {
      var n := |ids| - 1;
      PickKept(added, s, op, ids[..n], gone);
      assert Pick(added, ids)[..n] == Pick(added, ids[..n]);
    }
  }

  ghost predicate Described(added: seq<Bug>, s: State)
    reads added
  {
    && |added| == |s.all| && InBounds(s.all, s.listed)
    && forall i :: 0 <= i < |added| ==> Is(added[i], s.all[i])
  }

  /** What the list shows of names and taps is what the history shows. */
  lemma SameList(added: seq<Bug>, s: State, name: string)
    requires Described(added, s)
    ensures HasName(Pick(added, s.listed), name) <==> Named(s, name)
    ensures AllTaps(Pick(added, s.listed)) <==> AllTap(s)
  {
    var list := Pick(added, s.listed);
    forall id | id in s.listed ensures exists k :: 0 <= k < |list| && s.listed[k] == id && list[k] == added[id] {
      var k :| 0 <= k < |s.listed| && s.listed[k] == id;
      assert list[k] == added[id];
    }
    assert forall k :: 0 <= k < |list| ==> s.listed[k] in s.listed && list[k] == added[s.listed[k]];
  }

  lemma Attached(added: seq<Bug>, s: State, op: Op, bug: Bug)
    requires Described(added, s) && op.Add? && Refusal(s, op) == Success && Is(bug, Attributes(op))
    ensures var t := After(s, op);
            && Described(added + [bug], t) && Pick(added + [bug], t.listed) == [bug] + Pick(added, s.listed)
            && t.tapOnly == AllTaps([bug] + Pick(added, s.listed)) && t.destroyable == s.destroyable
  {
    var t, all := After(s, op), added + [bug];
    assert forall i :: 0 <= i < |added| ==> all[i] == added[i];
    assert Pick(all, t.listed) == [bug] + Pick(added, s.listed);
    SameList(all, t, "");
  }

  /** What the removal of a bug leaves on the list. */
  ghost function LeftBy(list: seq<Bug>, bug: Bug, held: bool): seq<Bug> {
    if bug in list && !held then Without(list, {bug}) else list
  }

  /** A session with all the bugs ever added to it. */
  class History {
    const session: Session
    var added: seq<Bug>
    ghost var state: State

    ghost predicate Valid()
      reads this, session, session.members
    {
      && session.Valid() && NoRepeats(added) && Within(added, session.members) && Described(added, state)
      && session.list == Pick(added, state.listed)
      && session.tapOnly == state.tapOnly && session.destroyable == state.destroyable
    }

    constructor ()
      ensures Valid() && fresh(session) && session.members == {} && state == NEW
    {
      session := new Session();
      added, state := [], NEW;
    }

    method CallAdd(op: Op) returns (status: Status, bug: Bug?)
      requires Valid() && op.Add?
      modifies session`bugs, session`tapOnly, session`list, session`members
      ensures Known() && fresh(session.members - old(session.members)) && session.destroyable == state.destroyable
      ensures status == Refusal(state, op)
      ensures status != Success ==> session.list == old(session.list) && session.tapOnly == old(session.tapOnly)
      ensures status == Success ==>
                && bug != null && bug in session.members && bug !in added && Is(bug, Attributes(op))
                && session.list == [bug] + old(session.list) && session.tapOnly == AllTaps(session.list)
    {
      ghost var refusal := SameRefusal(op);
      status, bug := session.Add(op.name, op.oneOnly, op.tapRead, op.tapWrite, op.prune, op.lock, op.threadId,
                                 op.mediaReady, op.initOk);
    }

    lemma SameRefusal(op: Op) returns (refusal: Status)
      requires Valid() && op.Add?
      ensures refusal == Refusal(state, op)
      ensures refusal ==
              if op.oneOnly && op.name.Some? && op.name.value != "" && HasName(session.list, op.name.value) then GenErr
              else if !op.mediaReady then False
              else if !op.initOk then GenErr
              else Success
    {
      SameList(added, state, if op.name.Some? then op.name.value else "");
      refusal := Refusal(state, op);
    }

    method StepAdd(op: Op) returns (answer: Answer)
      requires Valid() && op.Add?
      modifies this`added, this`state, session`bugs, session`tapOnly, session`list, session`members
      ensures Valid() && fresh(session.members - old(session.members))
      ensures state == After(old(state), op) && answer == AnswerOf(old(state), op)
    {
      var status, bug := CallAdd(op);
      answer := Returned(status);
      if status == Success {
        Attach(op, bug);
      }
    }

    ghost predicate Known()
      reads this, session, session.members
    {
      session.Valid() && NoRepeats(added) && Within(added, session.members) && Described(added, state)
    }

    method Attach(op: Op, bug: Bug)
      requires op.Add? && Known() && bug in session.members && bug !in added && Is(bug, Attributes(op))
      requires session.list == [bug] + Pick(added, state.listed) && session.destroyable == state.destroyable
      requires Refusal(state, op) == Success && session.tapOnly == AllTaps(session.list)
      modifies this`added, this`state
      ensures Valid() && state == After(old(state), op)
    {
      Attached(added, state, op, bug);
      added := added + [bug];
      state := After(state, op);
      assert session.Valid() && Described(added, state);
      assert NoRepeats(added) && Within(added, session.members);
    }

    method StepMark(k: nat)
      requires Valid()
      modifies this`state, added`prune
      ensures Valid() && state == After(old(state), Op.Mark(k))
    {
      if k < |added| {
        added[k].prune := true;
      }
      state := After(state, Op.Mark(k));
    }

    /** What a set of bugs leaves on the list, by number. */
    lemma PickGone(op: Op, gone: set<Bug>)
      requires Valid() && forall id :: id in state.listed ==> (added[id] in gone <==> Takes(state, op, id))
      ensures Without(session.list, gone) == Pick(added, Kept(state, op, state.listed))
    {
      PickKept(added, state, op, state.listed, gone);
    }

    lemma SameNumber(k: nat)
      requires Valid() && k < |added|
      ensures added[k] in session.list <==> k in state.listed
    {
      if k in state.listed {
        var i :| 0 <= i < |state.listed| && state.listed[i] == k;
        assert session.list[i] == added[k];
      }
      if i :| 0 <= i < |session.list| && session.list[i] == added[k] {
        assert state.listed[i] == k;
      }
    }

    /** The bug that a Remove asks for is on the list if its number is, and what is left without it. */
    lemma OneGone(k: nat, self: nat)
      requires Valid() && k < |added|
      ensures added[k] in session.list <==> k in state.listed
      ensures added[k].HeldBack(self) == HeldBack(state.all[k], self) && added[k].lock == state.all[k].lock
      ensures LeftBy(session.list, added[k], added[k].HeldBack(self)) ==
              Pick(added, Kept(state, Op.Remove(k, self), state.listed))
    {
      SameNumber(k);
      assert Is(added[k], state.all[k]);
      var gone := if added[k].HeldBack(self) then {} else {added[k]};
      PickGone(Op.Remove(k, self), gone);
      if added[k].HeldBack(self) || k !in state.listed {
        WithoutNone(session.list, gone);
      }
    }

    method RemoveBug(bug: Bug, self: nat) returns (status: Status)
      requires Valid() && bug in session.members
      modifies session`bugs, session`tapOnly, session`list
      modifies session.members`next, session.members`ready, session.members`destroyed
      ensures Known() && session.tapOnly == (bug.lock && old(session.tapOnly))
      ensures status == if bug in old(session.list) && !old(bug.HeldBack(self)) then Success else False
      ensures session.list == LeftBy(old(session.list), bug, old(bug.HeldBack(self)))
    {
      status := session.Remove(bug, self);
    }

    method CallRemove(k: nat, self: nat) returns (status: Status)
      requires Valid() && k < |added|
      modifies session`bugs, session`tapOnly, session`list
      modifies session.members`next, session.members`ready, session.members`destroyed
      ensures Known() && session.destroyable == state.destroyable
      ensures session.list == Pick(added, Kept(state, Op.Remove(k, self), state.listed))
      ensures session.tapOnly == (state.tapOnly && state.all[k].lock)
      ensures Returned(status) == AnswerOf(state, Op.Remove(k, self))
    {
      OneGone(k, self);
      status := RemoveBug(added[k], self);
    }

    method StepRemove(k: nat, self: nat) returns (answer: Answer)
      requires Valid()
      modifies this`state, session`bugs, session`tapOnly, session`list
      modifies session.members`next, session.members`ready, session.members`destroyed
      ensures Valid() && state == After(old(state), Op.Remove(k, self)) && answer == AnswerOf(old(state), Op.Remove(k, self))
    {
      if k >= |added| {
        return Nothing;
      }
      var status := CallRemove(k, self);
      answer := Returned(status);
      state := After(state, Op.Remove(k, self));
    }

    lemma MarkedGone()
      requires Valid()
      ensures Without(session.list, session.Marked()) == Pick(added, Kept(state, Op.Prune, state.listed))
      ensures forall i :: 0 <= i < |added| ==>
                (added[i] in session.Marked() <==> i in state.listed && state.all[i].prune)
    {
      forall i | 0 <= i < |added| ensures added[i] in session.Marked() <==> i in state.listed && state.all[i].prune {
        SameNumber(i);
      }
      PickGone(Op.Prune, session.Marked());
    }

    lemma RemovableGone(whose: string, self: nat)
      requires Valid()
      ensures Without(session.list, session.AllRemovable(whose, self)) ==
              Pick(added, Kept(state, Op.RemoveAll(whose, self), state.listed))
    {
      var op := Op.RemoveAll(whose, self);
      forall id | id in state.listed ensures added[id] in session.AllRemovable(whose, self) <==> Takes(state, op, id) {
        SameNumber(id);
      }
      PickGone(op, session.AllRemovable(whose, self));
    }

    /** The attributes after a prune are those that LetGo tells. */
    method PruneBugs() returns (count: int)
      requires Valid()
      modifies session`bugs, session`list
      modifies session.members`next, session.members`ready, session.members`destroyed
      modifies session.members`lock, session.members`threadId
      ensures session.Valid() && session.list == Without(old(session.list), old(session.Marked()))
      ensures count == |old(session.list)| - |session.list|
      ensures forall i :: 0 <= i < |added| ==> Is(added[i], LetGo(state)[i])
    {
      MarkedGone();
      ghost var marked := session.Marked();
      count := session.Prune();
      forall i | 0 <= i < |added| ensures Is(added[i], LetGo(state)[i]) {
        assert if added[i] in marked then added[i].Gone()
               else added[i].lock == old(added[i].lock) && added[i].threadId == old(added[i].threadId);
      }
    }

    method CallPrune() returns (count: int)
      requires Valid()
      modifies session`bugs, session`list
      modifies session.members`next, session.members`ready, session.members`destroyed
      modifies session.members`lock, session.members`threadId
      ensures session.Valid() && NoRepeats(added) && Within(added, session.members)
      ensures Described(added, After(state, Op.Prune)) && session.destroyable == state.destroyable
      ensures session.list == Pick(added, Kept(state, Op.Prune, state.listed)) && session.tapOnly == state.tapOnly
      ensures count == |state.listed| - |Kept(state, Op.Prune, state.listed)|
    {
      MarkedGone();
      count := PruneBugs();
    }

    method StepPrune() returns (answer: Answer)
      requires Valid()
      modifies this`state, session`bugs, session`list
      modifies session.members`next, session.members`ready, session.members`destroyed
      modifies session.members`lock, session.members`threadId
      ensures Valid() && state == After(old(state), Op.Prune) && answer == AnswerOf(old(state), Op.Prune)
    {
      var count := CallPrune();
      answer := Pruned(count);
      state := After(state, Op.Prune);
    }

    method CallRemoveAll(whose: string, self: nat) returns (status: Status)
      requires Valid()
      modifies session`bugs, session`list
      modifies session.members`next, session.members`ready, session.members`destroyed
      ensures Known() && session.destroyable == state.destroyable && session.tapOnly == state.tapOnly
      ensures session.list == Pick(added, Kept(state, Op.RemoveAll(whose, self), state.listed))
      ensures Returned(status) == AnswerOf(state, Op.RemoveAll(whose, self))
    {
      RemovableGone(whose, self);
      status := session.RemoveAllFunction(whose, self);
    }

    method StepRemoveAll(whose: string, self: nat) returns (answer: Answer)
      requires Valid()
      modifies this`state, session`bugs, session`list
      modifies session.members`next, session.members`ready, session.members`destroyed
      ensures Valid() && state == After(old(state), Op.RemoveAll(whose, self))
      ensures answer == AnswerOf(old(state), Op.RemoveAll(whose, self))
    {
      var status := CallRemoveAll(whose, self);
      answer := Returned(status);
      state := After(state, Op.RemoveAll(whose, self));
    }

    method Step(op: Op) returns (answer: Answer)
      requires Valid()
      modifies this, session, session.members
      ensures Valid() && fresh(session.members - old(session.members))
      ensures state == After(old(state), op) && answer == AnswerOf(old(state), op)
    {
      answer := Nothing;
      match op
      case Add(_, _, _, _, _, _, _, _, _) => answer := StepAdd(op);
      case Mark(k) => StepMark(k);
      case Remove(k, self) => answer := StepRemove(k, self);
      case Prune => answer := StepPrune();
      case RemoveAll(whose, self) => answer := StepRemoveAll(whose, self);
      case Destroyable =>
        session.destroyable := true;
        state := After(state, op);
    }
  }

  /**
   Any run on a new session leaves the list, the flag and the answers that its history demands. The flag is
   set if and only if the last operation to set it anew was an Add that saw native taps only.
   */
  method Run(ops: seq<Op>) returns (h: History, answers: seq<Answer>)
    ensures fresh(h) && fresh(h.session) && fresh(h.session.members) && h.Valid()
    ensures h.state == Replay(ops) && answers == Answers(ops)
    ensures h.session.tapOnly ==> AllTaps(h.session.list)
    ensures AllTaps(h.session.list) <==> AllTap(Replay(ops))
    ensures h.session.tapOnly <==> exists i :: SetByAdd(ops, i)
    decreases |ops|
  {
    if |ops| == 0 {
      h := new History();
      answers := [];
    } else {
      h, answers := Run(ops[..|ops| - 1]);
      var answer := h.Step(ops[|ops| - 1]);
      answers := answers + [answer];
    }
    FlagSetByAdd(ops);
    SameList(h.added, h.state, "");
  }
}
