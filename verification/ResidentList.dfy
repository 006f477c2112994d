/**
 The list of resident objects of one file, as a value: what a sequence of make-resident and
 evict requests leaves in it. ResidentFile keeps a list that follows these functions.
*/
module ResidentList {
  /** A GEM object: its identity and the allocation behind it, which the list caches copy. */
  datatype Gem = Gem(id: nat, priv: nat)

  datatype Node = Node(obj: Gem, cnt: nat)

  function Objs(l: seq<Node>): (objs: seq<Gem>)
    ensures |objs| == |l| && forall i :: 0 <= i < |l| ==> objs[i] == l[i].obj
  {
    seq(|l|, i requires 0 <= i < |l| => l[i].obj)
  }

  /** How often `o` was asked to be resident, according to the list. */
  function Count(l: seq<Node>, o: Gem): nat {
    if l == [] then 0 else if l[0].obj == o then l[0].cnt else Count(l[1..], o)
  }

  /** One more request for `o`: counted at its node, or at a new node at the tail. */
  function Bump(l: seq<Node>, o: Gem): seq<Node> {
    if l == [] then [Node(o, 1)]
    else if l[0].obj == o then [Node(o, l[0].cnt + 1)] + l[1..]
    else [l[0]] + Bump(l[1..], o)
  }

  /** One request less for `o`; the node goes with the last of them. */
  function Unbump(l: seq<Node>, o: Gem): seq<Node> {
    if l == [] then []
    else if l[0].obj != o then [l[0]] + Unbump(l[1..], o)
    else if l[0].cnt <= 1 then l[1..]
    else [Node(o, l[0].cnt - 1)] + l[1..]
  }

  /** Each object once, with a positive count. */
  predicate Proper(l: seq<Node>) {
    l == [] || (l[0].cnt > 0 && l[0].obj !in Objs(l[1..]) && Proper(l[1..]))
  }

  lemma {:induction false} CountListed(l: seq<Node>, o: Gem)
    requires Proper(l)
    ensures Count(l, o) > 0 <==> o in Objs(l)
  {
    if l != [] { CountListed(l[1..], o); }
  }

  lemma {:induction false} BumpObjs(l: seq<Node>, o: Gem)
    ensures Objs(Bump(l, o)) == Objs(l) + if o in Objs(l) then [] else [o]
  {
    if l != [] {
      if l[0].obj != o {
        BumpObjs(l[1..], o);
        assert Bump(l, o)[1..] == Bump(l[1..], o);
      } else {
        assert o == Objs(l)[0];
        assert Bump(l, o)[1..] == l[1..];
      }
    }
  }

  lemma {:induction false} BumpCounts(l: seq<Node>, o: Gem, p: Gem)
    requires Proper(l)
    ensures Proper(Bump(l, o))
    ensures Count(Bump(l, o), p) == Count(l, p) + if p == o then 1 else 0
  {
    if l != [] {
      if l[0].obj != o {
        BumpCounts(l[1..], o, p);
        BumpObjs(l[1..], o);
        assert Bump(l, o)[1..] == Bump(l[1..], o);
      } else {
        assert Bump(l, o)[1..] == l[1..];
      }
    }
  }

  lemma {:induction false} UnbumpObjs(l: seq<Node>, o: Gem, p: Gem)
    ensures p in Objs(Unbump(l, o)) ==> p in Objs(l)
  {
    if l != [] {
      if l[0].obj != o {
        UnbumpObjs(l[1..], o, p);
        assert Unbump(l, o)[1..] == Unbump(l[1..], o);
      } else if l[0].cnt > 1 {
        assert Unbump(l, o)[1..] == l[1..];
      }
    }
  }

  lemma {:induction false} UnbumpCounts(l: seq<Node>, o: Gem, p: Gem)
    requires Proper(l)
    ensures Proper(Unbump(l, o))
    ensures Count(Unbump(l, o), p) == if p == o && Count(l, o) > 0 then Count(l, o) - 1 else Count(l, p)
  {
    if l != [] {
      if l[0].obj != o {
        UnbumpCounts(l[1..], o, p);
        UnbumpObjs(l[1..], o, l[0].obj);
        assert Unbump(l, o)[1..] == Unbump(l[1..], o);
      } else {
        CountListed(l[1..], o);
        if l[0].cnt > 1 { assert Unbump(l, o)[1..] == l[1..]; }
      }
    }
  }

  lemma StaysProper(l: seq<Node>, o: Gem)
    requires Proper(l)
    ensures Proper(Bump(l, o)) && Proper(Unbump(l, o))
  {
    BumpCounts(l, o, o);
    UnbumpCounts(l, o, o);
  }

  // ---------------------------------------------------------------- whole runs

  datatype Request = Make(o: Gem) | Evict(o: Gem)

  /** The list after the requests, the last of them last. */
  function Serve(rs: seq<Request>): seq<Node> {
    if rs == [] then []
    else
      var l := Serve(rs[..|rs| - 1]);
      match rs[|rs| - 1] case Make(o) => Bump(l, o) case Evict(o) => Unbump(l, o)
  }

  /** Make-resident requests for `o` not yet matched by an evict; an evict with none to match does nothing. */
  function Unmatched(rs: seq<Request>, o: Gem): nat {
    if rs == [] then 0
    else
      var n := Unmatched(rs[..|rs| - 1], o);
      match rs[|rs| - 1]
      case Make(p) => if p == o then n + 1 else n
      case Evict(p) => if p == o && n > 0 then n - 1 else n
  }

  /** An object is listed, once, exactly while requests for it are unmatched, with their number as its count. */
  lemma {:induction false} ServeCounts(rs: seq<Request>, o: Gem)
    ensures Proper(Serve(rs)) && Count(Serve(rs), o) == Unmatched(rs, o)
    ensures o in Objs(Serve(rs)) <==> Unmatched(rs, o) > 0
  {
    if rs != [] {
      var before, r := rs[..|rs| - 1], rs[|rs| - 1];
      ServeCounts(before, o);
      if r.Make? { BumpCounts(Serve(before), r.o, o); } else { UnbumpCounts(Serve(before), r.o, o); }
    }
    CountListed(Serve(rs), o);
  }

  // ---------------------------------------------------------------- where the driver's search stops

  lemma {:induction false} BumpFound(l: seq<Node>, o: Gem, i: nat)
    requires i < |l| && l[i].obj == o && forall j :: 0 <= j < i ==> l[j].obj != o
    ensures Bump(l, o) == l[i := Node(o, l[i].cnt + 1)]
  {
    if i > 0 { BumpFound(l[1..], o, i - 1); }
  }

  lemma {:induction false} Unlisted(l: seq<Node>, o: Gem)
    requires forall j :: 0 <= j < |l| ==> l[j].obj != o
    ensures Bump(l, o) == l + [Node(o, 1)] && Unbump(l, o) == l && o !in Objs(l)
  {
    if l != [] { Unlisted(l[1..], o); }
  }

  lemma {:induction false} UnbumpFound(l: seq<Node>, o: Gem, i: nat)
    requires i < |l| && l[i].obj == o && forall j :: 0 <= j < i ==> l[j].obj != o
    ensures Unbump(l, o) == if l[i].cnt > 1 then l[i := Node(o, l[i].cnt - 1)] else l[..i] + l[i + 1..]
  {
    if i > 0 {
      UnbumpFound(l[1..], o, i - 1);
      assert l[1..][..i - 1] == l[1..i] && l[1..][i..] == l[i + 1..];
    }
  }

  lemma SameObjs(l: seq<Node>, m: seq<Node>)
    requires |l| == |m| && forall i :: 0 <= i < |l| ==> l[i].obj == m[i].obj
    ensures Objs(l) == Objs(m)
  {}
}
