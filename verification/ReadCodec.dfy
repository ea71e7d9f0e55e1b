/** The stack of read codecs of a session: the codec in use, the ones it covers, and the real one. */
module ReadCodec {
  import opened Wrappers

  datatype Status = Success | False

  /** A filled-in implementation, or the zeroed one. */
  datatype Impl = Zeroed | Impl(id: nat)

  class Codec {
    var next: Codec?
    var ready: bool
    var impl: Option<nat>

    constructor (id: nat)
      ensures next == null && Ready() && impl == Some(id)
    {
      next, ready, impl := null, true, Some(id);
    }

    predicate Ready()
      reads this
    {
      ready && impl.Some?
    }

    function CurrentImpl(): Impl
      reads this
    {
      match impl
      case None => Zeroed
      case Some(id) => Impl(id)
    }
  }

  ghost function At(s: seq<Codec>, k: int): Codec? {
    if 0 <= k < |s| then s[k] else null
  }

  /** The codecs from c on are s, and the last of them has no next one. */
  ghost predicate ListFrom(c: Codec?, s: seq<Codec>)
    reads s
  {
    c == At(s, 0) && forall k {:trigger s[k].next} :: 0 <= k < |s| ==> s[k].next == At(s, k + 1)
  }

  /** A list that ends visits no codec twice. */
  lemma {:induction false} VisitsOnce(c: Codec?, s: seq<Codec>, i: nat, j: nat)
    requires ListFrom(c, s) && i < j < |s|
    ensures s[i] != s[j]
    decreases |s| - j
  {
    assert s[i].next == At(s, i + 1) && s[j].next == At(s, j + 1);
    if j + 1 < |s| {
      VisitsOnce(c, s, i + 1, j + 1);
    }
  }

  /** Codecs whose next ones are among them. */
  ghost predicate Closed(w: seq<Codec>)
    reads w
  {
    forall k {:trigger w[k].next} :: 0 <= k < |w| ==> w[k].next != null && w[k].next in w
  }

  lemma {:induction false} StaysIn(w: seq<Codec>, c: Codec, s: seq<Codec>, k: nat)
    requires c in w && Closed(w) && ListFrom(c, s) && k <= |s|
    ensures k < |s| && s[k] in w
  {
    if k > 0 {
      StaysIn(w, c, s, k - 1);
      assert s[k - 1].next == At(s, k);
      var j :| 0 <= j < |w| && w[j] == s[k - 1];
      assert w[j].next in w;
    }
  }

  lemma NeverEnds(w: seq<Codec>, c: Codec)
    requires c in w && Closed(w)
    ensures forall s :: !ListFrom(c, s)
  {
    forall s ensures !ListFrom(c, s) {
      if ListFrom(c, s) {
        StaysIn(w, c, s, |s|);
      }
    }
  }

  /** The position of c on s, |s| if it is not there. */
  ghost function IndexOf(s: seq<Codec>, c: Codec?): (i: nat)
    ensures i <= |s| && (i < |s| ==> s[i] == c)
    ensures forall j :: 0 <= j < i ==> s[j] != c
  {
    if s == [] || s[0] == c then 0 else 1 + IndexOf(s[1..], c)
  }

  /** What becomes of the list r when c is linked to the list s. */
  ghost function Relinked(r: seq<Codec>, c: Codec, s: seq<Codec>): seq<Codec> {
    var i := IndexOf(r, c);
    if i < |r| then r[..i + 1] + s else r
  }

  lemma RelinkedList(r: seq<Codec>, head: Codec?, c: Codec, s: seq<Codec>)
    requires head == At(r, 0) && ListFrom(c.next, s)
    requires forall k {:trigger r[k].next} :: 0 <= k < |r| && r[k] != c ==> r[k].next == At(r, k + 1)
    ensures ListFrom(head, Relinked(r, c, s))
  {
    var i, q := IndexOf(r, c), Relinked(r, c, s);
    forall k | 0 <= k < |q| ensures q[k].next == At(q, k + 1) {
      if k < |r| && k <= i {
        assert r[k].next == r[k].next;
      }
    }
  }

  /** A codec below the top of s that links back to the top. */
  lemma Endless(s: seq<Codec>, c: Codec)
    requires c in s && c.next == s[0]
    requires forall k {:trigger s[k].next} :: 0 <= k < |s| && s[k] != c ==> s[k].next == At(s, k + 1)
    ensures forall u :: !ListFrom(c, u)
  {
    var i := IndexOf(s, c);
    var w := s[..i + 1];
    forall k | 0 <= k < |w| ensures w[k].next != null && w[k].next in w {
      assert s[k].next == if k < i then w[k + 1] else w[0];
    }
    assert w[i] == c;
    NeverEnds(w, c);
  }

  /** Once the codec above the real one links to codec, the stack ends if and only if t leaves it alone. */
  lemma Replaced(s: seq<Codec>, p: nat, codec: Codec, t: seq<Codec>)
    requires 0 < p <= |s| && s[p - 1].next == codec && |t| > 0 && codec == t[0]
    requires forall k {:trigger s[k].next} :: 0 <= k < p - 1 ==> s[k].next == s[k + 1]
    requires forall k {:trigger t[k].next} :: 0 <= k < |t| && t[k] != s[p - 1] ==> t[k].next == At(t, k + 1)
    ensures s[p - 1] !in t ==> ListFrom(s[0], s[..p] + t) && ListFrom(codec, t)
    ensures s[p - 1] in t ==> forall u :: !ListFrom(s[0], u) && !ListFrom(codec, u)
  {
    if s[p - 1] in t {
      var q := IndexOf(t, s[p - 1]);
      var w := s[..p] + t[..q + 1];
      forall k | 0 <= k < |w| ensures w[k].next != null && w[k].next in w {
        if k < p {
          assert w[k] == s[k];
          assert s[k].next == if k < p - 1 then w[k + 1] else w[p];
        } else {
          assert w[k] == t[k - p];
          assert t[k - p].next == if k - p < q then w[k + 1] else w[p];
        }
      }
      assert w[0] == s[0] && w[p] == codec;
      NeverEnds(w, s[0]);
      NeverEnds(w, codec);
    } else {
      var u := s[..p] + t;
      forall k | 0 <= k < |u| ensures u[k].next == At(u, k + 1) {
        if k < p {
          assert u[k] == s[k];
        } else {
          assert u[k] == t[k - p] && t[k - p].next == At(t, k - p + 1);
        }
      }
    }
  }

  class Session {
    var readCodec: Codec?
    var realReadCodec: Codec?
    var readImpl: Impl
    var realReadImpl: Impl
    /** The codecs from the one in use on. */
    ghost var chain: seq<Codec>
    /** The codecs from the real one on. */
    ghost var rest: seq<Codec>

    ghost predicate Valid()
      reads this, chain, rest
    {
      && ListFrom(readCodec, chain) && ListFrom(realReadCodec, rest)
      && (readCodec == null <==> realReadCodec == null)
      && (readCodec != null ==> readCodec in chain && (readCodec.Ready() ==> readImpl == Impl(readCodec.impl.value)))
      && (realReadCodec != null ==>
            realReadCodec in rest && (realReadCodec.Ready() ==> realReadImpl == Impl(realReadCodec.impl.value)))
    }

    constructor ()
      ensures Valid() && readCodec == null && readImpl == Zeroed
    {
      readCodec, realReadCodec, readImpl, realReadImpl, chain, rest := null, null, Zeroed, Zeroed, [], [];
    }

    method Unset()
      modifies this`readCodec, this`realReadCodec, this`chain, this`rest
      ensures Valid() && readCodec == null
    {
      readCodec, realReadCodec := null, null;
      chain, rest := [], [];
    }

    /** The first codec of a session; t is the list it starts, if that ends. */
    method SetFirst(codec: Codec, ghost t: seq<Codec>)
      requires codec.Ready()
      modifies this
      ensures readCodec == realReadCodec == codec && readImpl == realReadImpl == Impl(codec.impl.value)
      ensures ListFrom(codec, t) ==> Valid() && chain == rest == t
    {
      readCodec, realReadCodec := codec, codec;
      readImpl := codec.CurrentImpl();
      realReadImpl := codec.CurrentImpl();
      chain, rest := t, t;
    }

    lemma AboveOnce(p: nat)
      requires ListFrom(readCodec, chain) && 0 < p <= |chain|
      ensures forall k :: 0 <= k < p - 1 ==> chain[k] != chain[p - 1]
    {
      forall k | 0 <= k < p - 1 ensures chain[k] != chain[p - 1] {
        VisitsOnce(readCodec, chain, k, p - 1);
      }
    }

    lemma TopOnce(c: Codec)
      requires ListFrom(readCodec, chain) && c == readCodec
      ensures c !in chain[1..]
    {
      forall k | 1 <= k < |chain| ensures chain[k] != c {
        VisitsOnce(c, chain, 0, k);
      }
    }

    /** Covers the codec in use with another. The stack still ends if and only if that one was not on it. */
    method Push(codec: Codec)
      requires Valid() && codec.Ready() && realReadCodec != null && codec != readCodec
      modifies this`readCodec, this`readImpl, this`chain, this`rest, codec`next
      ensures readCodec == codec && readImpl == Impl(codec.impl.value)
      ensures codec !in old(chain) ==>
                Valid() && chain == [codec] + old(chain) && rest == Relinked(old(rest), codec, old(chain))
      ensures codec in old(chain) ==> forall s :: !ListFrom(readCodec, s)
    {
      codec.next := readCodec;
      if codec in chain {
        Endless(chain, codec);
      } else {
        assert ListFrom(readCodec, chain);
        RelinkedList(rest, realReadCodec, codec, chain);
        rest := Relinked(rest, codec, chain);
        chain := [codec] + chain;
      }
      readCodec := codec;
      readImpl := codec.CurrentImpl();
    }

    /** Goes back to the codec below, or to the real one when there is none. */
    method Pop()
      requires Valid()
      modifies this`readCodec, this`readImpl, this`chain, this`rest, chain`next
      ensures Valid() && forall c :: c in old(chain) && c != old(readCodec) ==> c.next == old(c.next)
      ensures old(readCodec) == realReadCodec ==>
                readCodec == old(readCodec) && readImpl == old(readImpl) && chain == old(chain) && rest == old(rest)
      ensures old(readCodec) != realReadCodec ==>
                && old(readCodec).next == null
                && readCodec != null
                && readImpl == (if readCodec.impl.Some? then Impl(readCodec.impl.value) else Zeroed)
                && IndexOf(chain, realReadCodec) == old(IndexOf(chain, realReadCodec)) - 1
                && if |old(chain)| > 1 then chain == old(chain)[1..] else readCodec == realReadCodec
    {
      if readCodec == realReadCodec {
        return;
      }
      if readCodec.next != null {
        var covering := readCodec;
        TopOnce(covering);
        readCodec := covering.next;
        readImpl := readCodec.CurrentImpl();
        covering.next := null;
        chain := chain[1..];
        RelinkedList(rest, realReadCodec, covering, []);
        rest := Relinked(rest, covering, []);
      } else {
        readCodec := realReadCodec;
        readImpl := realReadCodec.CurrentImpl();
        chain := rest;
      }
    }

    /** The codec that would have to link to a new real codec. */
    ghost function Above(): (c: Codec?)
      reads this
    {
      if realReadCodec in chain then At(chain, IndexOf(chain, realReadCodec) - 1) else null
    }

    /** The codec right above the real one, if the real one is covered at all. */
    method FindAbove() returns (above: Codec?)
      requires Valid() && realReadCodec != null
      ensures above == Above()
    {
      above := readCodec;
      ghost var k := 0;
      while above != null
        invariant 0 <= k <= |chain| && above == At(chain, k)
        invariant forall i :: 1 <= i <= k && i < |chain| ==> chain[i] != realReadCodec
        decreases |chain| - k
      {
        if above.next == realReadCodec {
          if chain[0] == realReadCodec {
            VisitsOnce(readCodec, chain, 0, k + 1);
          }
          return;
        }
        above := above.next;
        k := k + 1;
      }
    }

    method LinkAbove(codec: Codec, ghost t: seq<Codec>)
      requires Valid() && realReadCodec != null && (ListFrom(codec, t) || (Closed(t) && codec in t))
      modifies this`chain, chain`next
      ensures old(Above()) == null ==> chain == old(chain)
      ensures old(Above()) != null ==> chain == old(chain[..IndexOf(chain, realReadCodec)]) + t
      ensures old(ListFrom(codec, t)) && (old(Above()) == null || old(Above()) !in t) ==>
                ListFrom(readCodec, chain) && ListFrom(codec, t)
      ensures old(ListFrom(codec, t)) && old(Above()) != null && old(Above()) in t ==>
                forall s :: !ListFrom(readCodec, s) && !ListFrom(codec, s)
      ensures !old(ListFrom(codec, t)) ==> forall s :: !ListFrom(codec, s)
    {
      var above := FindAbove();
      if above != null {
        ghost var p := IndexOf(chain, realReadCodec);
        AboveOnce(p);
        ghost var ends := ListFrom(codec, t);
        above.next := codec;
        if ends {
          Replaced(chain, p, codec, t);
        }
        chain := chain[..p] + t;
      }
      if Closed(t) && codec in t {
        NeverEnds(t, codec);
      }
    }

    /**
     Puts a new codec in the place of the real one; t is the list it starts, or codecs whose links never leave
     t. The codecs above stay as they are unless the one in use is no longer ready.
     */
    method ReplaceReal(codec: Codec, ghost t: seq<Codec>)
      requires Valid() && codec.Ready() && realReadCodec != null
      requires ListFrom(codec, t) || (Closed(t) && codec in t)
      modifies this, chain`next
      ensures realReadCodec == codec && realReadImpl == Impl(codec.impl.value)
      ensures old(readCodec.Ready()) ==> readCodec == old(readCodec) && readImpl == old(readImpl)
      ensures !old(readCodec.Ready()) ==> readCodec == codec && readImpl == Impl(codec.impl.value)
      ensures old(ListFrom(codec, t)) && (old(Above()) == null || old(Above()) !in t) ==>
                Valid() && rest == t && chain == if !old(readCodec.Ready()) then t
                                                 else if old(Above()) == null then old(chain)
                                                 else old(chain[..IndexOf(chain, realReadCodec)]) + t
      ensures old(ListFrom(codec, t)) && old(Above()) != null && old(Above()) in t ==> forall s :: !ListFrom(readCodec, s)
      ensures !old(ListFrom(codec, t)) ==> forall s :: !ListFrom(realReadCodec, s)
    {
      LinkAbove(codec, t);
      rest := t;
      realReadCodec := codec;
      realReadImpl := codec.CurrentImpl();
      if !readCodec.Ready() {
        readCodec := codec;
        readImpl := codec.CurrentImpl();
        realReadImpl := codec.CurrentImpl();
        chain := t;
      }
    }

    /** The new codec starts a list t that ends, or is among codecs t whose links never leave t. */
    method SetRealReadCodec(codec: Codec?, ghost t: seq<Codec>) returns (status: Status)
      requires Valid() && (ListFrom(codec, t) || (Closed(t) && codec in t))
      modifies this, chain`next
      ensures status == if codec != null && codec.Ready() then Success else False
      ensures status == False ==>
                && Valid() && readCodec == old(readCodec) && realReadCodec == old(realReadCodec)
                && chain == old(chain) && rest == old(rest)
      ensures status == Success ==> realReadCodec == codec && realReadImpl == Impl(codec.impl.value)
      ensures status == Success && old(readCodec) != null && old(readCodec.Ready()) ==>
                readCodec == old(readCodec) && readImpl == old(readImpl)
      ensures status == Success && (old(readCodec) == null || !old(readCodec.Ready())) ==>
                readCodec == codec && readImpl == Impl(codec.impl.value)
      ensures status == Success && old(ListFrom(codec, t)) ==>
                if old(Above()) == null || old(Above()) !in t then Valid() else forall s :: !ListFrom(readCodec, s)
      ensures status == Success && old(ListFrom(codec, t)) && (old(Above()) == null || old(Above()) !in t) ==>
                && rest == t
                && chain == if old(readCodec) == null || !old(readCodec.Ready()) then t
                            else if old(Above()) == null then old(chain)
                            else old(chain[..IndexOf(chain, realReadCodec)]) + t
      ensures status == Success && !old(ListFrom(codec, t)) ==> forall s :: !ListFrom(realReadCodec, s)
    {
      if codec == null || !codec.Ready() {
        return False;
      }
      if realReadCodec == null {
        SetFirst(codec, t);
        if Closed(t) && codec in t {
          NeverEnds(t, codec);
        }
      } else {
        ReplaceReal(codec, t);
      }
      return Success;
    }

    /** Pushes a ready codec that is not in use already; anything else pops. */
    method SetReadCodec(codec: Codec?, ghost t: seq<Codec>) returns (status: Status)
      requires Valid() && (realReadCodec == null ==> ListFrom(codec, t))
      modifies this, chain`next, if codec == null then {} else {codec}
      ensures status == Success && (codec != null ==> codec.Ready() == old(codec.Ready()))
      ensures codec != null && codec.Ready() ==> forall c :: c in old(chain) && c != codec ==> c.next == old(c.next)
      ensures codec == null || !codec.Ready() || codec == old(readCodec) || codec !in old(chain) ==> Valid()
      ensures codec != null && codec.Ready() && codec != old(readCodec) ==>
                readCodec == codec && readImpl == Impl(codec.impl.value)
                && if old(realReadCodec) == null then realReadCodec == codec && chain == t
                   else realReadCodec == old(realReadCodec)
                        && if codec in old(chain) then forall s :: !ListFrom(readCodec, s)
                           else chain == [codec] + old(chain)
      ensures codec == null || !codec.Ready() ==>
                && realReadCodec == old(realReadCodec)
                && if old(readCodec) == realReadCodec then readCodec == realReadCodec && chain == old(chain)
                   else if |old(chain)| > 1 then chain == old(chain)[1..] && readImpl == readCodec.CurrentImpl()
                   else readCodec == realReadCodec && readImpl == readCodec.CurrentImpl()
    {
      status := Success;
      if codec != null && codec.Ready() {
        if realReadCodec == null {
          SetFirst(codec, t);
        } else if codec != readCodec {
          Push(codec);
        }
      } else {
        Pop();
      }
    }

    /** Wipes a ready codec, which may be on the stack or below the real one. */
    method Destroy(codec: Codec) returns (status: Status)
      requires Valid()
      modifies codec, this`chain, this`rest
      ensures Valid() && !codec.Ready() && status == if old(codec.Ready()) then Success else False
      ensures status == False ==>
                codec.next == old(codec.next) && codec.ready == old(codec.ready) && codec.impl == old(codec.impl)
                && chain == old(chain) && rest == old(rest)
      ensures status == Success ==>
                && codec.next == null && codec.impl == None && !codec.ready
                && chain == Relinked(old(chain), codec, []) && rest == Relinked(old(rest), codec, [])
    {
      if !codec.Ready() {
        return False;
      }
      Wipe(codec);
      status := Success;
    }

    method Wipe(codec: Codec)
      requires Valid()
      modifies codec, this`chain, this`rest
      ensures Valid() && !codec.ready && codec.impl == None && codec.next == null
      ensures chain == Relinked(old(chain), codec, []) && rest == Relinked(old(rest), codec, [])
    {
      codec.next, codec.ready, codec.impl := null, false, None;
      RelinkedList(chain, readCodec, codec, []);
      RelinkedList(rest, realReadCodec, codec, []);
      chain, rest := Relinked(chain, codec, []), Relinked(rest, codec, []);
    }

    /** From any state a bounded number of pops leads back to the real codec. */
    method PopToReal() returns (pops: nat)
      requires Valid()
      modifies this`readCodec, this`readImpl, this`chain, this`rest, chain`next
      ensures Valid() && readCodec == realReadCodec
      ensures pops == old(IndexOf(chain, realReadCodec)) <= |old(chain)|
    {
      pops := 0;
      while readCodec != realReadCodec
        invariant Valid()
        invariant readCodec != realReadCodec ==> pops < |old(chain)| && chain == old(chain)[pops..]
        invariant pops + IndexOf(chain, realReadCodec) == old(IndexOf(chain, realReadCodec))
        decreases IndexOf(chain, realReadCodec)
      {
        Pop();
        pops := pops + 1;
      }
    }

    /** A push followed by a pop; only the real codec itself, pushed on a stack it is not on, stays. */
    method PushThenPop(codec: Codec)
      requires Valid() && codec.Ready() && realReadCodec != null && codec !in chain
      modifies this`readCodec, this`readImpl, this`chain, this`rest, chain`next, codec`next
      ensures Valid()
      ensures codec != realReadCodec ==> readCodec == old(readCodec) && chain == old(chain)
      ensures codec != realReadCodec && readCodec.Ready() ==> readImpl == old(readImpl)
      ensures codec == realReadCodec ==> readCodec == codec
    {
      Push(codec);
      Pop();
    }
  }

  /** A codec pushed again while another one covers it: the stack has no end. */
  method CoveredPushedAgain() returns (s: Session)
    ensures forall u :: !ListFrom(s.readCodec, u)
  {
    var a, b;
    s, a, b := Covered();
    var status := s.SetReadCodec(b, []);
  }

  method Covered() returns (s: Session, a: Codec, b: Codec)
    ensures fresh(s) && fresh(a) && fresh(b) && a != b && a.Ready() && b.Ready()
    ensures s.Valid() && s.chain == [a, b] && s.realReadCodec == b && a.next == b && b.next == null
  {
    s := new Session();
    b := new Codec(1);
    var status := s.SetReadCodec(b, [b]);
    a := new Codec(2);
    status := s.SetReadCodec(a, []);
    assert s.chain[0] == a && s.chain[1] == b;
  }

  /** A codec wiped on top of the stack; of c and r, cut off below it, c still links to r. */
  method CutOff() returns (s: Session, d: Codec, c: Codec, r: Codec)
    ensures fresh(s) && fresh(d) && fresh(c) && fresh(r) && d != c && d != r && c != r
    ensures !d.Ready() && c.Ready() && r.Ready()
    ensures s.Valid() && s.chain == [d] && s.readCodec == d && s.realReadCodec == r && c.next == r && r.next == null
  {
    s, c, r := Covered();
    d := new Codec(3);
    var status := s.SetReadCodec(d, []);
    assert s.chain == [d, c, r];
    status := s.Destroy(d);
  }

  /** A stack with x over a new real codec e, and the same two. */
  method StaleLink() returns (s: Session, c: Codec, r: Codec, x: Codec, e: Codec)
    ensures fresh(s) && fresh(c) && fresh(r) && fresh(x) && fresh(e)
    ensures c != r && c != x && c != e && r != x && r != e && x != e
    ensures c.Ready() && r.Ready() && x.Ready() && e.Ready()
    ensures s.Valid() && s.chain == [x, e] && s.realReadCodec == e && c.next == r && r.next == null
  {
    var d;
    s, d, c, r := CutOff();
    e := new Codec(4);
    var status := s.SetRealReadCodec(e, [e]);
    x := new Codec(5);
    status := s.SetReadCodec(x, []);
  }

  /** A run from a new session after which a new real codec closes the stack to a loop through its old link. */
  method StaleRealCodec() returns (s: Session)
    ensures forall u :: !ListFrom(s.readCodec, u)
  {
    var c, r, x, e;
    s, c, r, x, e := StaleLink();
    var status := s.SetReadCodec(r, []);
    assert s.chain == [r, x, e];
    status := s.SetRealReadCodec(c, [c, r, x, e]);
  }
}
