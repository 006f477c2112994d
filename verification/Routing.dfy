/**
 Changing the configuration of a crtc (legacy mode setting): new connector -> encoder -> crtc
 links are staged beside the live ones, swapped in, and swapped back when the hardware refuses.
*/
module Routing {
  import opened Common

  /** What does not change: each connector's output bits and its encoder, and which crtcs an encoder works with. */
  datatype Board = Board(outputs: seq<set<nat>>, best: seq<nat>, encoders: nat, compatible: set<(nat, nat)>)

  /** The live links. */
  datatype Links = Links(encoder: seq<Option<nat>>, crtc: seq<Option<nat>>)

  datatype ModeSet = ModeSet(crtc: nat, mode: Option<int>, fb: Option<nat>, x: int, y: int, connectors: seq<Option<nat>>)

  predicate WellFormed(b: Board, l: Links) {
    && |b.outputs| == |b.best| == |l.encoder| && |l.crtc| == b.encoders
    && (forall c :: 0 <= c < |b.best| ==> b.best[c] < b.encoders)
    && (forall c :: 0 <= c < |l.encoder| && l.encoder[c].Some? ==> l.encoder[c].value < b.encoders)
  }

  /** The output bits of the connectors asked for. */
  function Mask(b: Board, connectors: seq<Option<nat>>): set<nat> {
    if connectors == [] then {}
    else
      (if connectors[0].Some? && connectors[0].value < |b.outputs| then b.outputs[connectors[0].value] else {})
      + Mask(b, connectors[1..])
  }

  predicate Selected(b: Board, mask: set<nat>, c: nat)
    requires c < |b.outputs|
  {
    b.outputs[c] * mask != {}
  }

  lemma {:induction false} MaskExact(b: Board, connectors: seq<Option<nat>>, o: nat)
    ensures o in Mask(b, connectors) <==>
      exists i :: 0 <= i < |connectors| && connectors[i].Some? && connectors[i].value < |b.outputs| && o in b.outputs[connectors[i].value]
  {
    if connectors != [] {
      MaskExact(b, connectors[1..], o);
      if i :| 0 <= i < |connectors[1..]| && connectors[1..][i].Some? && connectors[1..][i].value < |b.outputs| && o in b.outputs[connectors[1..][i].value] {
        assert connectors[i + 1] == connectors[1..][i];
      }
      forall i | 0 < i < |connectors| ensures connectors[i] == connectors[1..][i - 1] {}
    }
  }

  /** A connector is selected if and only if it shares an output with one that was asked for. */
  lemma SelectedExact(b: Board, connectors: seq<Option<nat>>, c: nat)
    requires c < |b.outputs|
    ensures Selected(b, Mask(b, connectors), c) <==>
      exists i :: 0 <= i < |connectors| && connectors[i].Some? && connectors[i].value < |b.outputs| && b.outputs[c] * b.outputs[connectors[i].value] != {}
  {
    var mask := Mask(b, connectors);
    if Selected(b, mask, c) {
      var o :| o in b.outputs[c] * mask;
      MaskExact(b, connectors, o);
      var i :| 0 <= i < |connectors| && connectors[i].Some? && connectors[i].value < |b.outputs| && o in b.outputs[connectors[i].value];
      assert o in b.outputs[c] * b.outputs[connectors[i].value];
    }
    if i :| 0 <= i < |connectors| && connectors[i].Some? && connectors[i].value < |b.outputs| && b.outputs[c] * b.outputs[connectors[i].value] != {} {
      var o :| o in b.outputs[c] * b.outputs[connectors[i].value];
      MaskExact(b, connectors, o);
      assert o in b.outputs[c] * mask;
    }
  }

  lemma AskedIsSelected(b: Board, connectors: seq<Option<nat>>, i: nat)
    requires i < |connectors| && connectors[i].Some? && connectors[i].value < |b.outputs|
    requires b.outputs[connectors[i].value] != {}
    ensures Selected(b, Mask(b, connectors), connectors[i].value)
  {
    SelectedExact(b, connectors, connectors[i].value);
    var o :| o in b.outputs[connectors[i].value];
    assert o in b.outputs[connectors[i].value] * b.outputs[connectors[i].value];
  }

  // ---------------------------------------------------------------- staging

  function NewEncoder(b: Board, l: Links, crtc: nat, mask: set<nat>, c: nat): (e: Option<nat>)
    requires WellFormed(b, l) && c < |b.best|
    ensures e.Some? ==> e.value < b.encoders
  {
    if Selected(b, mask, c) then Some(b.best[c])
    else if l.encoder[c].Some? && l.crtc[l.encoder[c].value] != Some(crtc) then l.encoder[c]
    else None
  }

  function NewEncoders(b: Board, l: Links, crtc: nat, mask: set<nat>): seq<Option<nat>>
    requires WellFormed(b, l)
  {
    seq(|b.best|, c requires 0 <= c < |b.best| => NewEncoder(b, l, crtc, mask, c))
  }

  /** The crtc an encoder will drive for connector `c`. */
  function Wanted(b: Board, l: Links, crtc: nat, mask: set<nat>, c: nat): Option<nat>
    requires WellFormed(b, l) && c < |b.best| && NewEncoder(b, l, crtc, mask, c).Some?
  {
    if Selected(b, mask, c) then Some(crtc) else l.crtc[NewEncoder(b, l, crtc, mask, c).value]
  }

  predicate Refused(b: Board, l: Links, crtc: nat, mask: set<nat>, c: nat)
    requires WellFormed(b, l) && c < |b.best|
  {
    var e := NewEncoder(b, l, crtc, mask, c);
    e.Some? && Wanted(b, l, crtc, mask, c).Some? && (e.value, Wanted(b, l, crtc, mask, c).value) !in b.compatible
  }

  /** Staging connector `c`: its new encoder gets its crtc, an encoder it leaves gets none. */
  function StageOne(b: Board, l: Links, crtc: nat, mask: set<nat>, c: nat, s: seq<Option<nat>>): (t: seq<Option<nat>>)
    requires WellFormed(b, l) && c < |b.best| && |s| == b.encoders
    ensures |t| == b.encoders
  {
    var e := NewEncoder(b, l, crtc, mask, c);
    var placed := if e.Some? then s[e.value := Wanted(b, l, crtc, mask, c)] else s;
    if l.encoder[c].Some? && l.encoder[c] != e then placed[l.encoder[c].value := None] else placed
  }

  /** The staged crtcs after the first `k` connectors. */
  function Stage(b: Board, l: Links, crtc: nat, mask: set<nat>, k: nat): (s: seq<Option<nat>>)
    requires WellFormed(b, l) && k <= |b.best|
    ensures |s| == b.encoders
  {
    if k == 0 then seq(b.encoders, e => None)
    else StageOne(b, l, crtc, mask, k - 1, Stage(b, l, crtc, mask, k - 1))
  }

  predicate SomeRefused(b: Board, l: Links, crtc: nat, mask: set<nat>)
    requires WellFormed(b, l)
  {
    exists c :: 0 <= c < |b.best| && Refused(b, l, crtc, mask, c)
  }

  function Target(b: Board, l: Links, crtc: nat, mask: set<nat>): Links
    requires WellFormed(b, l)
  {
    Links(NewEncoders(b, l, crtc, mask), Stage(b, l, crtc, mask, |b.best|))
  }

  // ---------------------------------------------------------------- what the staged links mean

  /** Every connector has an encoder of its own, and is linked to it or to none. */
  predicate FixedEncoders(b: Board, l: Links)
    requires WellFormed(b, l)
  {
    && (forall c, d :: 0 <= c < d < |b.best| ==> b.best[c] != b.best[d])
    && (forall c :: 0 <= c < |b.best| ==> l.encoder[c] in {None, Some(b.best[c])})
  }

  /** Selected connectors reach the crtc; those on other crtcs keep their link; the rest of those on it are detached. */
  predicate Routed(b: Board, l: Links, m: Links, crtc: nat, mask: set<nat>)
    requires WellFormed(b, l) && WellFormed(b, m)
  {
    forall c :: 0 <= c < |b.best| ==>
      var e := b.best[c];
      if Selected(b, mask, c) then m.encoder[c] == Some(e) && m.crtc[e] == Some(crtc)
      else if l.encoder[c].Some? && l.crtc[e] != Some(crtc) then m.encoder[c] == Some(e) && m.crtc[e] == l.crtc[e]
      else m.encoder[c] == None && m.crtc[e] == None
  }

  lemma {:induction false} StageMeans(b: Board, l: Links, crtc: nat, mask: set<nat>, k: nat, c: nat)
    requires WellFormed(b, l) && FixedEncoders(b, l) && k <= |b.best| && c < |b.best|
    ensures Stage(b, l, crtc, mask, k)[b.best[c]] ==
      if c < k && NewEncoder(b, l, crtc, mask, c).Some? then Wanted(b, l, crtc, mask, c) else None
  {
    if k > 0 {
      StageMeans(b, l, crtc, mask, k - 1, c);
      assert l.encoder[k - 1] in {None, Some(b.best[k - 1])};
      assert c != k - 1 ==> b.best[c] != b.best[k - 1];
    }
  }

  lemma TargetRouted(b: Board, l: Links, crtc: nat, mask: set<nat>)
    requires WellFormed(b, l) && FixedEncoders(b, l)
    ensures WellFormed(b, Target(b, l, crtc, mask)) && FixedEncoders(b, Target(b, l, crtc, mask))
    ensures Routed(b, l, Target(b, l, crtc, mask), crtc, mask)
  {
    forall c | 0 <= c < |b.best|
      ensures Stage(b, l, crtc, mask, |b.best|)[b.best[c]] ==
        if NewEncoder(b, l, crtc, mask, c).Some? then Wanted(b, l, crtc, mask, c) else None
    {
      StageMeans(b, l, crtc, mask, |b.best|, c);
    }
  }

  /** A change is refused if and only if it would leave a connector on an encoder and a crtc that do not work together. */
  lemma RefusedExact(b: Board, l: Links, crtc: nat, mask: set<nat>)
    requires WellFormed(b, l) && FixedEncoders(b, l)
    ensures var m := Target(b, l, crtc, mask);
      SomeRefused(b, l, crtc, mask) <==>
      exists c :: 0 <= c < |b.best| && m.encoder[c].Some? && m.crtc[b.best[c]].Some? && (b.best[c], m.crtc[b.best[c]].value) !in b.compatible
  {
    var m := Target(b, l, crtc, mask);
    forall c | 0 <= c < |b.best|
      ensures Refused(b, l, crtc, mask, c) <==>
        m.encoder[c].Some? && m.crtc[b.best[c]].Some? && (b.best[c], m.crtc[b.best[c]].value) !in b.compatible
    {
      StageMeans(b, l, crtc, mask, |b.best|, c);
      assert l.encoder[c] in {None, Some(b.best[c])};
    }
  }

  /** Connector `c` gets another encoder. */
  predicate EncoderMoves(b: Board, l: Links, crtc: nat, mask: set<nat>, c: nat)
    requires WellFormed(b, l) && c < |b.best|
  {
    NewEncoder(b, l, crtc, mask, c).Some? && NewEncoder(b, l, crtc, mask, c) != l.encoder[c]
  }

  /** Connector `c` is detached, or its encoder gets another crtc. */
  predicate CrtcMoves(b: Board, l: Links, crtc: nat, mask: set<nat>, c: nat)
    requires WellFormed(b, l) && c < |b.best|
  {
    var e := NewEncoder(b, l, crtc, mask, c);
    if e.Some? then Wanted(b, l, crtc, mask, c) != l.crtc[e.value] else l.encoder[c].Some?
  }

  predicate SomeMove(b: Board, l: Links, crtc: nat, mask: set<nat>)
    requires WellFormed(b, l)
  {
    exists c :: 0 <= c < |b.best| && (EncoderMoves(b, l, crtc, mask, c) || CrtcMoves(b, l, crtc, mask, c))
  }

  /** The driver's change detection is exact: a full mode set is asked for whenever a connector's route differs. */
  lemma MovesExact(b: Board, l: Links, crtc: nat, mask: set<nat>)
    requires WellFormed(b, l) && FixedEncoders(b, l)
    ensures var m := Target(b, l, crtc, mask);
      SomeMove(b, l, crtc, mask) <==>
      exists c :: 0 <= c < |b.best| && (m.encoder[c] != l.encoder[c] ||
        (l.encoder[c].Some? && m.crtc[b.best[c]] != l.crtc[b.best[c]]))
  {
    var m := Target(b, l, crtc, mask);
    forall c | 0 <= c < |b.best|
      ensures EncoderMoves(b, l, crtc, mask, c) || CrtcMoves(b, l, crtc, mask, c) <==>
        (m.encoder[c] != l.encoder[c] || (l.encoder[c].Some? && m.crtc[b.best[c]] != l.crtc[b.best[c]]))
    {
      StageMeans(b, l, crtc, mask, |b.best|, c);
      assert l.encoder[c] in {None, Some(b.best[c])};
    }
  }

  // ---------------------------------------------------------------- the driver

  const EINVAL: int := 22

  /** What the library and the hardware answer during one call, and which connectors have nothing plugged in. */
  datatype Answers = Answers(setModeOk: bool, setBaseOk: bool, disconnected: set<nat>)

  /** A crtc is in use when some connector's encoder is on it. */
  predicate InUse(encoder: seq<Option<nat>>, crtcOf: seq<Option<nat>>, crtc: nat) {
    exists c :: 0 <= c < |encoder| && Drives(encoder, crtcOf, c, crtc)
  }

  predicate Drives(encoder: seq<Option<nat>>, crtcOf: seq<Option<nat>>, c: nat, crtc: nat)
    requires c < |encoder|
  {
    encoder[c].Some? && encoder[c].value < |crtcOf| && crtcOf[encoder[c].value] == Some(crtc)
  }

  /** Framebuffers after unused outputs were disabled. */
  function KeptFb(fb: seq<Option<nat>>, encoder: seq<Option<nat>>, crtcOf: seq<Option<nat>>): seq<Option<nat>> {
    seq(|fb|, i requires 0 <= i < |fb| => if InUse(encoder, crtcOf, i) then fb[i] else None)
  }

  /** A connected connector that was asked for ends up on the crtc. */
  lemma SelectedDrives(b: Board, l: Links, crtc: nat, mask: set<nat>, disconnected: set<nat>, c: nat)
    requires WellFormed(b, l) && FixedEncoders(b, l) && c < |b.best| && Selected(b, mask, c) && c !in disconnected
    ensures var m := Target(b, l, crtc, mask);
      InUse(m.encoder, m.crtc, crtc) && InUse(Detached(m.encoder, disconnected), m.crtc, crtc)
  {
    TargetRouted(b, l, crtc, mask);
    var m := Target(b, l, crtc, mask);
    assert Drives(m.encoder, m.crtc, c, crtc) && Drives(Detached(m.encoder, disconnected), m.crtc, c, crtc);
  }

  class Router {
    const board: Board
    var encoder: seq<Option<nat>>      // connector -> encoder
    var newEncoder: seq<Option<nat>>
    var crtcOf: seq<Option<nat>>       // encoder -> crtc
    var newCrtc: seq<Option<nat>>
    var fb: seq<Option<nat>>           // primary framebuffer of each crtc
    var mode: seq<int>
    var x: seq<int>
    var y: seq<int>

    ghost function Live(): Links reads this { Links(encoder, crtcOf) }
    ghost function Staged(): Links reads this { Links(newEncoder, newCrtc) }

    ghost predicate Valid() reads this {
      && WellFormed(board, Live()) && |newEncoder| == |encoder| && |newCrtc| == |crtcOf|
      && |fb| == |mode| == |x| == |y|
    }

    ghost predicate NothingStaged() reads this {
      && (forall c :: 0 <= c < |newEncoder| ==> newEncoder[c].None?)
      && (forall e :: 0 <= e < |newCrtc| ==> newCrtc[e].None?)
    }

    constructor (board: Board, crtcs: nat)
      requires |board.outputs| == |board.best| && forall c :: 0 <= c < |board.best| ==> board.best[c] < board.encoders
      ensures Valid() && NothingStaged() && this.board == board && |fb| == crtcs
      ensures forall c :: 0 <= c < |encoder| ==> encoder[c].None?
    {
      this.board := board;
      encoder := seq(|board.best|, c => None);
      newEncoder := seq(|board.best|, c => None);
      crtcOf := seq(board.encoders, e => None);
      newCrtc := seq(board.encoders, e => None);
      fb, mode := seq(crtcs, i => None), seq(crtcs, i => 0);
      x, y := seq(crtcs, i => 0), seq(crtcs, i => 0);
    }

    /** Forget what is staged. */
    method InitNew()
      requires Valid()
      modifies this`newEncoder, this`newCrtc
      ensures Valid() && NothingStaged() && newCrtc == seq(board.encoders, e => None)
    {
      for c := 0 to |newEncoder|
        invariant Valid() && forall d :: 0 <= d < c ==> newEncoder[d].None?
      {
        newEncoder := newEncoder[c := None];
      }
      for e := 0 to |newCrtc|
        invariant Valid() && (forall d :: 0 <= d < |newEncoder| ==> newEncoder[d].None?)
        invariant forall d :: 0 <= d < e ==> newCrtc[d].None?
      {
        newCrtc := newCrtc[e := None];
      }
    }

    /** Live links take the staged ones if `updateOld`; staged ones take the live ones unless `clearNew`. */
    method Swap(updateOld: bool, clearNew: bool)
      requires Valid() && WellFormed(board, Staged())
      modifies this`encoder, this`newEncoder, this`crtcOf, this`newCrtc
      ensures Valid() && Live() == if updateOld then old(Staged()) else old(Live())
      ensures if clearNew then NothingStaged() else Staged() == old(Live())
    {
      for c := 0 to |encoder|
        invariant |encoder| == |newEncoder| == |old(encoder)|
        invariant forall d :: 0 <= d < c ==> encoder[d] == if updateOld then old(newEncoder)[d] else old(encoder)[d]
        invariant forall d :: 0 <= d < c ==> newEncoder[d] == if clearNew then None else old(encoder)[d]
        invariant forall d :: c <= d < |encoder| ==> encoder[d] == old(encoder)[d] && newEncoder[d] == old(newEncoder)[d]
        invariant crtcOf == old(crtcOf) && newCrtc == old(newCrtc)
      {
        var temp := encoder[c];
        if updateOld { encoder := encoder[c := newEncoder[c]]; }
        newEncoder := newEncoder[c := if temp.Some? && !clearNew then temp else None];
      }
      assert encoder == if updateOld then old(newEncoder) else old(encoder);
      assert !clearNew ==> newEncoder == old(encoder);
      ghost var enc, newEnc := encoder, newEncoder;
      for e := 0 to |crtcOf|
        invariant |crtcOf| == |newCrtc| == |old(crtcOf)| && encoder == enc && newEncoder == newEnc
        invariant forall d :: 0 <= d < e ==> crtcOf[d] == if updateOld then old(newCrtc)[d] else old(crtcOf)[d]
        invariant forall d :: 0 <= d < e ==> newCrtc[d] == if clearNew then None else old(crtcOf)[d]
        invariant forall d :: e <= d < |crtcOf| ==> crtcOf[d] == old(crtcOf)[d] && newCrtc[d] == old(newCrtc)[d]
      {
        var temp := crtcOf[e];
        if updateOld { crtcOf := crtcOf[e := newCrtc[e]]; }
        newCrtc := newCrtc[e := if temp.Some? && !clearNew then temp else None];
      }
      assert crtcOf == if updateOld then old(newCrtc) else old(crtcOf);
      assert !clearNew ==> newCrtc == old(crtcOf);
    }

    /** Stage the encoders; report whether a connector gets another one. */
    method StageEncoders(crtc: nat, mask: set<nat>) returns (changed: bool)
      requires Valid()
      modifies this`newEncoder
      ensures Valid() && newEncoder == NewEncoders(board, Live(), crtc, mask)
      ensures changed <==> exists c :: 0 <= c < |board.best| && EncoderMoves(board, Live(), crtc, mask, c)
    {
      changed := false;
      for c := 0 to |encoder|
        invariant Valid()
        invariant forall d :: 0 <= d < c ==> newEncoder[d] == NewEncoder(board, Live(), crtc, mask, d)
        invariant changed <==> exists d :: 0 <= d < c && EncoderMoves(board, Live(), crtc, mask, d)
      {
        var e := None;
        if board.outputs[c] * mask != {} {
          e := Some(board.best[c]);
        } else if encoder[c].Some? && crtcOf[encoder[c].value] != Some(crtc) {
          e := encoder[c];
        }
        newEncoder := newEncoder[c := e];
        assert EncoderMoves(board, Live(), crtc, mask, c) <==> e.Some? && e != encoder[c];
        if e.Some? && e != encoder[c] { changed := true; }
      }
    }

    /** Stage the crtc of one connector's encoder, if they work together. */
    method StageCrtc(crtc: nat, mask: set<nat>, c: nat) returns (ok: bool, moves: bool)
      requires Valid() && c < |board.best| && newEncoder[c] == NewEncoder(board, Live(), crtc, mask, c)
      modifies this`newCrtc
      ensures Valid() && (ok <==> !Refused(board, Live(), crtc, mask, c))
      ensures ok ==> newCrtc == StageOne(board, Live(), crtc, mask, c, old(newCrtc))
      ensures ok ==> (moves <==> CrtcMoves(board, Live(), crtc, mask, c))
    {
      ok, moves := true, false;
      if newEncoder[c].Some? {
        var e := newEncoder[c].value;
        var to := if board.outputs[c] * mask != {} then Some(crtc) else crtcOf[e];
        if to.Some? && (e, to.value) !in board.compatible { return false, false; }
        if to != crtcOf[e] { moves := true; }
        newCrtc := newCrtc[e := to];
        if Some(e) != encoder[c] {
          if encoder[c].Some? { newCrtc := newCrtc[encoder[c].value := None]; }
        }
      } else if encoder[c].Some? {
        newCrtc := newCrtc[encoder[c].value := None];
        moves := true;
      }
    }

    /** Stage the crtcs; stop at the first encoder that does not work with its crtc. */
    method StageCrtcs(crtc: nat, mask: set<nat>) returns (ok: bool, changed: bool)
      requires Valid() && newEncoder == NewEncoders(board, Live(), crtc, mask)
      requires newCrtc == Stage(board, Live(), crtc, mask, 0)
      modifies this`newCrtc
      ensures Valid() && (ok <==> !SomeRefused(board, Live(), crtc, mask))
      ensures ok ==> newCrtc == Stage(board, Live(), crtc, mask, |board.best|)
      ensures ok ==> (changed <==> exists c :: 0 <= c < |board.best| && CrtcMoves(board, Live(), crtc, mask, c))
    {
      ok, changed := true, false;
      for c := 0 to |encoder|
        invariant Valid() && ok && newCrtc == Stage(board, Live(), crtc, mask, c)
        invariant forall d :: 0 <= d < c ==> !Refused(board, Live(), crtc, mask, d)
        invariant changed <==> exists d :: 0 <= d < c && CrtcMoves(board, Live(), crtc, mask, d)
      {
        var moves;
        ok, moves := StageCrtc(crtc, mask, c);
        if !ok { return; }
        changed := changed || moves;
      }
    }

    /** Detach what hangs on disconnected connectors; crtcs then out of use lose their framebuffer. */
    method DisableUnused(answers: Answers)
      requires Valid()
      modifies this`encoder, this`fb
      ensures Valid() && encoder == Detached(old(encoder), answers.disconnected)
      ensures fb == KeptFb(old(fb), encoder, crtcOf)
      ensures forall c :: 0 <= c < |encoder| ==> encoder[c] == if c in answers.disconnected then None else old(encoder)[c]
      ensures forall i :: 0 <= i < |fb| ==> fb[i] == if exists c :: 0 <= c < |encoder| && Drives(encoder, crtcOf, c, i) then old(fb)[i] else None
    {
      for c := 0 to |encoder|
        invariant Valid() && fb == old(fb)
        invariant forall d :: 0 <= d < |encoder| ==>
          encoder[d] == if d < c then Detached(old(encoder), answers.disconnected)[d] else old(encoder)[d]
      {
        if encoder[c].Some? && c in answers.disconnected { encoder := encoder[c := None]; }
      }
      for i := 0 to |fb|
        invariant Valid() && encoder == Detached(old(encoder), answers.disconnected) && |fb| == |old(fb)|
        invariant forall j :: 0 <= j < |fb| ==> fb[j] == if j >= i then old(fb)[j] else KeptFb(old(fb), encoder, crtcOf)[j]
      {
        if !InUse(encoder, crtcOf, i) { fb := fb[i := None]; }
      }
    }

    /** Take every encoder off the crtc, and the connectors off these encoders. */
    method DisableCrtc(crtc: nat, answers: Answers)
      requires Valid()
      modifies this`encoder, this`crtcOf, this`fb
      ensures Valid()
      ensures crtcOf == OffCrtc(old(crtcOf), crtc)
      ensures encoder == Detached(OffEncoders(old(encoder), old(crtcOf), crtc), answers.disconnected)
      ensures fb == KeptFb(old(fb), encoder, crtcOf)
    {
      for e := 0 to |crtcOf|
        invariant Valid() && fb == old(fb)
        invariant forall d :: 0 <= d < |crtcOf| ==> crtcOf[d] == if d < e then OffCrtc(old(crtcOf), crtc)[d] else old(crtcOf)[d]
        invariant forall c :: 0 <= c < |encoder| ==>
          encoder[c] == if old(encoder)[c].Some? && old(encoder)[c].value >= e then old(encoder)[c]
                        else OffEncoders(old(encoder), old(crtcOf), crtc)[c]
      {
        if crtcOf[e] == Some(crtc) {
          crtcOf := crtcOf[e := None];
          DetachAll(e);
        }
      }
      assert encoder == OffEncoders(old(encoder), old(crtcOf), crtc);
      DisableUnused(answers);
    }

    method DetachAll(e: nat)
      requires Valid()
      modifies this`encoder
      ensures Valid()
      ensures forall c :: 0 <= c < |encoder| ==> encoder[c] == if old(encoder)[c] == Some(e) then None else old(encoder)[c]
    {
      for c := 0 to |encoder|
        invariant Valid()
        invariant forall d :: 0 <= d < |encoder| ==>
          encoder[d] == if d < c && old(encoder)[d] == Some(e) then None else old(encoder)[d]
      {
        if encoder[c] == Some(e) { encoder := encoder[c := None]; }
      }
    }

    /** The crtc needs a full mode set, or only another framebuffer or position. */
    predicate NeedsMode(set_: ModeSet)
      requires set_.crtc < |fb| && set_.crtc < |mode|
      reads this
    {
      (fb[set_.crtc] != set_.fb && fb[set_.crtc].None?) || set_.mode != Some(mode[set_.crtc])
    }

    predicate NeedsFlip(set_: ModeSet)
      requires set_.crtc < |fb| && set_.crtc < |x| && set_.crtc < |y|
      reads this
    {
      (fb[set_.crtc] != set_.fb && fb[set_.crtc].Some?) || set_.x != x[set_.crtc] || set_.y != y[set_.crtc]
    }

    /** After the swap: bring the hardware there. */
    method Commit(set_: ModeSet, answers: Answers, modeChanged: bool, fbChanged: bool) returns (ok: bool)
      requires Valid() && set_.crtc < |fb| && set_.mode.Some?
      modifies this`encoder, this`fb, this`mode, this`x, this`y
      ensures Valid() && |fb| == |old(fb)|
      ensures ok <==> if modeChanged then InUse(old(encoder), crtcOf, set_.crtc) ==> answers.setModeOk else fbChanged ==> answers.setBaseOk
      ensures !ok ==> encoder == old(encoder) && fb == old(fb) && mode == old(mode) && x == old(x) && y == old(y)
      ensures ok ==> encoder == if modeChanged then Detached(old(encoder), answers.disconnected) else old(encoder)
      ensures ok && !modeChanged ==> fb == if fbChanged then old(fb)[set_.crtc := set_.fb] else old(fb)
      ensures ok && modeChanged ==>
        fb == KeptFb(if InUse(old(encoder), crtcOf, set_.crtc) then old(fb)[set_.crtc := set_.fb] else old(fb), encoder, crtcOf)
      ensures ok ==>
        var placed := modeChanged && InUse(old(encoder), crtcOf, set_.crtc);
        && mode == (if placed then old(mode)[set_.crtc := set_.mode.value] else old(mode))
        && x == (if placed || (!modeChanged && fbChanged) then old(x)[set_.crtc := set_.x] else old(x))
        && y == (if placed || (!modeChanged && fbChanged) then old(y)[set_.crtc := set_.y] else old(y))
    {
      ok := true;
      var i := set_.crtc;
      if modeChanged {
        if InUse(encoder, crtcOf, i) {
          var oldFb := fb[i];
          fb := fb[i := set_.fb];
          if !answers.setModeOk {
            fb := fb[i := oldFb];
            return false;
          }
          mode := mode[i := set_.mode.value];
          x, y := x[i := set_.x], y[i := set_.y];
        }
        DisableUnused(answers);
      } else if fbChanged {
        var oldFb := fb[i];
        fb := fb[i := set_.fb];
        if !answers.setBaseOk {
          fb := fb[i := oldFb];
          return false;
        }
        x, y := x[i := set_.x], y[i := set_.y];
      }
    }

    /** Stage the change and swap it in; `moves` tells whether a connector's route differs. Nothing stays staged when it is refused. */
    method Prepare(set_: ModeSet, mask: set<nat>) returns (ok: bool, moves: bool)
      requires Valid()
      modifies this`encoder, this`newEncoder, this`crtcOf, this`newCrtc
      ensures Valid() && (ok <==> !SomeRefused(board, old(Live()), set_.crtc, mask))
      ensures ok ==> Live() == Target(board, old(Live()), set_.crtc, mask) && Staged() == old(Live())
      ensures ok ==> (moves <==> SomeMove(board, old(Live()), set_.crtc, mask))
      ensures !ok ==> Live() == old(Live()) && NothingStaged()
    {
      InitNew();
      var encodersMove := StageEncoders(set_.crtc, mask);
      var crtcsMove;
      ok, crtcsMove := StageCrtcs(set_.crtc, mask);
      moves := encodersMove || crtcsMove;
      assert WellFormed(board, Staged());
      Swap(ok, !ok);
    }

    /**
     Set the configuration of a crtc. `mid` is the live routing between the swap and the disabling
     of unused outputs. A failure leaves everything as it was. After a success a crtc in use has the mode and
     position asked for; nothing of another crtc changes but a framebuffer no connector shows any more.
    */
    method SetConfig(set_: ModeSet, answers: Answers) returns (ret: int, ghost mid: Links)
      requires Valid() && set_.crtc < |fb|
      modifies this
      ensures Valid()
      ensures ret in {0, -EINVAL}
      ensures ret != 0 ==> Live() == old(Live()) && fb == old(fb) && mode == old(mode) && x == old(x) && y == old(y) && NothingStaged()
      ensures var b, l, mask := board, old(Live()), Mask(board, set_.connectors);
        if set_.mode.None? || set_.fb.None? then
          ret == 0 && crtcOf == OffCrtc(l.crtc, set_.crtc)
          && encoder == Detached(OffEncoders(l.encoder, l.crtc, set_.crtc), answers.disconnected)
          && fb == KeptFb(old(fb), encoder, crtcOf) && mode == old(mode) && x == old(x) && y == old(y)
        else
          var m, i := Target(b, l, set_.crtc, mask), set_.crtc;
          var oldFb, same := old(fb)[i], set_.x == old(x)[i] && set_.y == old(y)[i];
          var full := oldFb.None? || set_.mode != Some(old(mode)[i]) || SomeMove(b, l, i, mask);
          && (ret == 0 <==>
                && !SomeRefused(b, l, i, mask)
                && (if full then InUse(m.encoder, m.crtc, i) ==> answers.setModeOk
                    else set_.fb != oldFb || !same ==> answers.setBaseOk))
          && (ret == 0 ==>
                && NothingStaged() && mid == m && crtcOf == m.crtc
                && encoder == (if full then Detached(m.encoder, answers.disconnected) else m.encoder)
                && fb == (if !full then old(fb)[i := set_.fb]
                          else KeptFb(if InUse(m.encoder, m.crtc, i) then old(fb)[i := set_.fb] else old(fb), encoder, crtcOf)))
      ensures ret == 0 && set_.mode.Some? && set_.fb.Some? && InUse(mid.encoder, mid.crtc, set_.crtc) ==>
        && mode == old(mode)[set_.crtc := set_.mode.value] && x == old(x)[set_.crtc := set_.x] && y == old(y)[set_.crtc := set_.y]
        && (set_.mode != Some(old(mode)[set_.crtc]) ==> answers.setModeOk)
        && (set_.fb != old(fb)[set_.crtc] || set_.x != old(x)[set_.crtc] || set_.y != old(y)[set_.crtc] ==>
              answers.setModeOk || answers.setBaseOk)
      ensures set_.mode.None? || set_.fb.None? ==> !InUse(encoder, crtcOf, set_.crtc) && fb[set_.crtc] == None
      ensures |fb| == |old(fb)| && forall i :: 0 <= i < |fb| && i != set_.crtc ==> fb[i] == old(fb)[i] || (fb[i] == None && !InUse(encoder, crtcOf, i))
      ensures !SomeRefused(board, old(Live()), set_.crtc, Mask(board, set_.connectors)) && answers.setModeOk && answers.setBaseOk ==> ret == 0
    {
      mid := Live();
      ret := 0;
      if set_.mode.None? || set_.fb.None? {
        OffMeans(Live(), set_.crtc, answers.disconnected);
        DisableCrtc(set_.crtc, answers);
        mid := Live();
        return;
      }
      var modeChanged, fbChanged := NeedsMode(set_), NeedsFlip(set_);
      var ok, moves := Prepare(set_, Mask(board, set_.connectors));
      if !ok {
        ret := -EINVAL;
        return;
      }
      mid := Live();
      var done := Commit(set_, answers, modeChanged || moves, fbChanged);
      if done {
        Swap(false, true);
      } else {
        Swap(true, true);
        ret := -EINVAL;
      }
    }
  }

  function Detached(encoder: seq<Option<nat>>, disconnected: set<nat>): seq<Option<nat>> {
    seq(|encoder|, c requires 0 <= c < |encoder| => if c in disconnected then None else encoder[c])
  }

  /** Switching a crtc off takes every encoder and connector off it, and no encoder or connected connector off another crtc. */
  lemma OffMeans(l: Links, crtc: nat, disconnected: set<nat>)
    ensures var encoder, crtcOf := Detached(OffEncoders(l.encoder, l.crtc, crtc), disconnected), OffCrtc(l.crtc, crtc);
      && !InUse(encoder, crtcOf, crtc) && |crtcOf| == |l.crtc|
      && (forall e :: 0 <= e < |crtcOf| ==> crtcOf[e] != Some(crtc) && (l.crtc[e] == Some(crtc) || crtcOf[e] == l.crtc[e]))
      && forall c, k :: 0 <= c < |l.encoder| && c !in disconnected && 0 <= k != crtc ==>
           (Drives(encoder, crtcOf, c, k) <==> Drives(l.encoder, l.crtc, c, k))
  {
  }

  /** A successful change with a connected connector leaves the crtc in use and shows the framebuffer asked for. */
  method ShowOn(router: Router, set_: ModeSet, answers: Answers, c: nat) returns (ret: int)
    requires router.Valid() && FixedEncoders(router.board, router.Live()) && set_.crtc < |router.fb|
    requires set_.mode.Some? && set_.fb.Some?
    requires c < |router.board.best| && Selected(router.board, Mask(router.board, set_.connectors), c) && c !in answers.disconnected
    modifies router
    ensures ret == 0 ==>
      |router.fb| == |old(router.fb)| && router.fb[set_.crtc] == set_.fb && InUse(router.encoder, router.crtcOf, set_.crtc)
  {
    SelectedDrives(router.board, router.Live(), set_.crtc, Mask(router.board, set_.connectors), answers.disconnected, c);
    ghost var mid;
    ret, mid := router.SetConfig(set_, answers);
  }

  function OffCrtc(crtcOf: seq<Option<nat>>, crtc: nat): seq<Option<nat>> {
    seq(|crtcOf|, e requires 0 <= e < |crtcOf| => if crtcOf[e] == Some(crtc) then None else crtcOf[e])
  }

  function OffEncoders(encoder: seq<Option<nat>>, crtcOf: seq<Option<nat>>, crtc: nat): seq<Option<nat>> {
    seq(|encoder|, c requires 0 <= c < |encoder| =>
      if encoder[c].Some? && encoder[c].value < |crtcOf| && crtcOf[encoder[c].value] == Some(crtc) then None else encoder[c])
  }
}
