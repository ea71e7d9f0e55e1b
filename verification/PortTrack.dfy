/**
 The slot states of the port allocator as a value: 1 is issued, 0 is free, and a negative number is
 a freed slot that the search must still step over that many times.
 */
module PortTrack {
  datatype Event = Stepped(slot: nat) | Issued(slot: nat) | Freed(slot: nat)

  function Used(t: seq<int>): (n: nat)
    ensures n <= |t|
  {
    if t == [] then 0 else Used(t[..|t| - 1]) + if t[|t| - 1] == 1 then 1 else 0
  }

  /** How many steps all cooling slots together still need. */
  function Cooling(t: seq<int>): nat {
    if t == [] then 0 else Cooling(t[..|t| - 1]) + if t[|t| - 1] < 0 then -t[|t| - 1] else 0
  }

  ghost predicate InStates(t: seq<int>) {
    forall i :: 0 <= i < |t| ==> -4 <= t[i] <= 1
  }

  lemma {:induction false} UsedUpdate(t: seq<int>, i: nat, v: int)
    requires i < |t|
    ensures Used(t[i := v]) == Used(t) - (if t[i] == 1 then 1 else 0) + (if v == 1 then 1 else 0)
  {
    if i == |t| - 1 {
      assert t[i := v][..|t| - 1] == t[..|t| - 1];
    } else {
      assert t[i := v][..|t| - 1] == t[..|t| - 1][i := v];
      UsedUpdate(t[..|t| - 1], i, v);
    }
  }

  lemma {:induction false} SomeUnused(t: seq<int>) returns (i: nat)
    requires Used(t) < |t|
    ensures i < |t| && t[i] != 1
  {
    i := |t| - 1;
    if t[i] == 1 {
      i := SomeUnused(t[..|t| - 1]);
    }
  }

  function Aged(v: int): int {
    if v < 0 then v + 1 else v
  }

  /** A pass that finds nothing ages every slot. */
  ghost predicate FailedPass(t: seq<int>, u: seq<int>) {
    |t| == |u| && forall i :: 0 <= i < |t| ==> t[i] != 0 && u[i] == Aged(t[i])
  }

  /** So it brings the total down by one for every slot that is not issued. */
  lemma {:induction false} FailedPassCools(t: seq<int>, u: seq<int>)
    requires InStates(t) && FailedPass(t, u)
    ensures Cooling(u) == Cooling(t) - (|t| - Used(t))
  {
    if t != [] {
      FailedPassCools(t[..|t| - 1], u[..|u| - 1]);
    }
  }

  /** Whether slot i is among the `tries` slots met from `first` on, going round. */
  ghost predicate Met(first: nat, tries: nat, i: nat, n: nat) {
    first <= i < first + tries || i + n < first + tries
  }

  /** The walk so far: the slots met were not free and have aged, the others are as they were. */
  ghost predicate Walked(t: seq<int>, u: seq<int>, first: nat, tries: nat) {
    && |t| == |u| && first < |t| && tries <= |t|
    && forall i :: 0 <= i < |t| ==>
         if Met(first, tries, i, |t|) then t[i] != 0 && u[i] == Aged(t[i]) else u[i] == t[i]
  }

  function Around(first: nat, tries: nat, n: nat): nat
    requires first < n && tries <= n
  {
    if first + tries < n then first + tries else first + tries - n
  }

  lemma WalkOn(t: seq<int>, u: seq<int>, first: nat, tries: nat)
    requires Walked(t, u, first, tries) && tries < |t| && u[Around(first, tries, |t|)] != 0
    ensures var i := Around(first, tries, |t|);
            u[i] == t[i] && Walked(t, u[i := Aged(u[i])], first, tries + 1)
  {
  }

  lemma WalkedAllRound(t: seq<int>, u: seq<int>, first: nat)
    requires Walked(t, u, first, |t|)
    ensures FailedPass(t, u)
  {
  }

  /** After p failed passes: issued slots are untouched and every other one has aged p steps. */
  ghost predicate CooledBy(t: seq<int>, u: seq<int>, p: nat) {
    && |t| == |u|
    && forall i :: 0 <= i < |t| ==> if t[i] == 1 then u[i] == 1 else t[i] + p == u[i] <= 0
  }

  lemma OnePassMore(t: seq<int>, u: seq<int>, v: seq<int>, p: nat)
    requires InStates(t) && CooledBy(t, u, p) && FailedPass(u, v) && Used(t) < |t|
    ensures CooledBy(t, v, p + 1) && p < 4
  {
    var i := SomeUnused(t);
    assert u[i] == t[i] + p;
  }

  /** The slot states around a successful request: one slot issued, the rest only cooler. */
  ghost predicate IssuedOne(t: seq<int>, u: seq<int>, slot: nat) {
    && |t| == |u| && slot < |t| && t[slot] != 1 && u[slot] == 1
    && forall i :: 0 <= i < |t| && i != slot ==> if t[i] == 1 then u[i] == 1 else t[i] <= u[i] <= 0
  }

  lemma IssueAfterPasses(t: seq<int>, u: seq<int>, v: seq<int>, p: nat, first: nat, tries: nat, slot: nat)
    requires InStates(t) && CooledBy(t, u, p) && Walked(u, v, first, tries) && slot < |v| && v[slot] == 0
    ensures IssuedOne(t, v[slot := 1], slot)
  {
    forall i | 0 <= i < |t| && i != slot ensures if t[i] == 1 then v[i] == 1 else t[i] <= v[i] <= 0 {
      assert v[i] == u[i] || v[i] == Aged(u[i]);
    }
    assert v[slot] == u[slot] || v[slot] == Aged(u[slot]);
  }

  predicate Legal(t: seq<int>, e: Event) {
    match e
    case Stepped(i) => i < |t| && t[i] != 0
    case Issued(i) => i < |t| && t[i] == 0
    case Freed(i) => i < |t| && t[i] == 1
  }

  function Next(t: seq<int>, e: Event): (u: seq<int>)
    ensures |u| == |t|
  {
    if !Legal(t, e) then t
    else match e
      case Stepped(i) => t[i := Aged(t[i])]
      case Issued(i) => t[i := 1]
      case Freed(i) => t[i := -4]
  }

  /** The slot states after a log of events on n slots that were all free. */
  function Replay(n: nat, log: seq<Event>): (t: seq<int>)
    ensures |t| == n
  {
    if log == [] then seq(n, _ => 0) else Next(Replay(n, log[..|log| - 1]), log[|log| - 1])
  }

  ghost predicate LegalRun(n: nat, log: seq<Event>) {
    log == [] || (LegalRun(n, log[..|log| - 1]) && Legal(Replay(n, log[..|log| - 1]), log[|log| - 1]))
  }

  lemma Extended(n: nat, log: seq<Event>, e: Event)
    requires LegalRun(n, log) && Legal(Replay(n, log), e)
    ensures LegalRun(n, log + [e]) && Replay(n, log + [e]) == Next(Replay(n, log), e)
  {
    assert (log + [e])[..|log|] == log;
  }

  /** Nothing but steps happened between two logs. */
  ghost predicate OnlySteps(l: seq<Event>, m: seq<Event>) {
    l <= m && forall k :: |l| <= k < |m| ==> m[k].Stepped?
  }

  function Steps(log: seq<Event>, i: nat): nat {
    if log == [] then 0 else Steps(log[..|log| - 1], i) + if log[|log| - 1] == Stepped(i) then 1 else 0
  }

  /** Since its last free a slot's state counts the steps over it. */
  lemma {:induction false} CoolingCountsSteps(n: nat, log: seq<Event>, a: nat, b: nat, i: nat)
    requires LegalRun(n, log) && a < b <= |log| && log[a] == Freed(i)
    requires forall k :: a < k < b ==> log[k] != Issued(i)
    ensures i < n && Replay(n, log[..b])[i] == Steps(log[a + 1..b], i) - 4 <= 0
    decreases b
  {
    var t, e := Replay(n, log[..b - 1]), log[b - 1];
    ReplayStep(n, log, b - 1);
    if b == a + 1 {
      assert log[a + 1..b] == [];
    } else {
      CoolingCountsSteps(n, log, a, b - 1, i);
      StepsStep(log, a + 1, b - 1, i);
      assert e.slot == i ==> e.Stepped?;
    }
  }

  lemma {:induction false} ReplayStep(n: nat, log: seq<Event>, b: nat)
    requires LegalRun(n, log) && b < |log|
    ensures Legal(Replay(n, log[..b]), log[b])
    ensures Replay(n, log[..b + 1]) == Next(Replay(n, log[..b]), log[b])
    decreases |log|
  {
    assert log[..b + 1][..b] == log[..b];
    if b < |log| - 1 {
      ReplayStep(n, log[..|log| - 1], b);
      assert log[..|log| - 1][..b] == log[..b];
    }
  }

  lemma StepsStep(log: seq<Event>, a: nat, b: nat, i: nat)
    requires a <= b < |log|
    ensures Steps(log[a..b + 1], i) == Steps(log[a..b], i) + if log[b] == Stepped(i) then 1 else 0
  {
    assert log[a..b + 1][..b - a] == log[a..b];
  }

  /** Between a free of a slot and its next issue, the search steps over it exactly four times. */
  lemma Quarantine(n: nat, log: seq<Event>, a: nat, b: nat, i: nat)
    requires LegalRun(n, log) && a < b < |log| && log[a] == Freed(i) && log[b] == Issued(i)
    requires forall k :: a < k < b ==> log[k] != Issued(i)
    ensures Steps(log[a + 1..b], i) == 4
  {
    CoolingCountsSteps(n, log, a, b, i);
    ReplayStep(n, log, b);
  }
}
