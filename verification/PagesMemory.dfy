/**
 Page memory: an allocation is decomposed into blocks of 2^order pages, which become the segments of
 a scatter list.
*/
module PagesMemory {
  import opened Common
  import opened SL = ScatterList

  const MAX_ALLOC_ORDER: nat := 9

  function Pow2(n: nat): (p: nat)
    ensures p >= 1
  {
    if n == 0 then 1 else 2 * Pow2(n - 1)
  }

  lemma {:induction false} Pow2Monotone(m: nat, n: nat)
    requires m <= n
    ensures Pow2(m) <= Pow2(n)
  {
    if m < n { Pow2Monotone(m, n - 1); }
  }

  function PageAlign(size: nat): (r: nat)
    ensures size <= r < size + PAGE_SIZE && r % PAGE_SIZE == 0
  {
    (size + PAGE_SIZE - 1) / PAGE_SIZE * PAGE_SIZE
  }

  /** The smallest order whose block holds `pages` pages, searched from `order` up. */
  function GetOrder(pages: nat, order: nat): (r: nat)
    ensures r >= order && Pow2(r) >= pages
    ensures r > order ==> Pow2(r - 1) < pages
    decreases if Pow2(order) >= pages then 0 else pages - Pow2(order)
  {
    if Pow2(order) >= pages then order else GetOrder(pages, order + 1)
  }

  /** The order to try for `size` bytes: the largest whose block is no larger, 0 at the least, 9 at the most. */
  function AllocOrder(size: nat): (order: nat)
  {
    var o := GetOrder((size + PAGE_SIZE - 1) / PAGE_SIZE, 0);
    var p := if Pow2(o) * PAGE_SIZE > size && o > 0 then o - 1 else o;
    if p > MAX_ALLOC_ORDER then MAX_ALLOC_ORDER else p
  }

  /** The same for whole pages. */
  function OrderFor(n: nat): nat {
    var o := GetOrder(n, 0);
    var p := if Pow2(o) > n && o > 0 then o - 1 else o;
    if p > MAX_ALLOC_ORDER then MAX_ALLOC_ORDER else p
  }

  lemma AllocOrderPages(n: nat)
    ensures AllocOrder(n * PAGE_SIZE) == OrderFor(n)
  {
    assert (n * PAGE_SIZE + PAGE_SIZE - 1) / PAGE_SIZE == n;
    var o := GetOrder(n, 0);
    assert Pow2(o) * PAGE_SIZE > n * PAGE_SIZE <==> Pow2(o) > n;
  }

  /** It is the largest order up to 9 whose block fits. */
  lemma OrderFits(n: nat)
    requires n > 0
    ensures var o := OrderFor(n);
      o <= MAX_ALLOC_ORDER && Pow2(o) <= n && (o < MAX_ALLOC_ORDER ==> n < Pow2(o + 1))
  {
    var o := GetOrder(n, 0);
    var p := if Pow2(o) > n && o > 0 then o - 1 else o;
    assert Pow2(p) <= n < Pow2(p + 1);
    if p > MAX_ALLOC_ORDER { Pow2Monotone(MAX_ALLOC_ORDER, p); }
  }

  lemma OrderMonotone(a: nat, b: nat)
    requires 0 < a <= b
    ensures OrderFor(a) <= OrderFor(b)
  {
    OrderFits(a);
    OrderFits(b);
    if OrderFor(a) > OrderFor(b) { Pow2Monotone(OrderFor(b) + 1, OrderFor(a)); }
  }

  // ---------------------------------------------------------------- decompositions

  /** The pages of blocks of these orders. */
  function Pages(orders: seq<nat>): nat {
    if orders == [] then 0 else Pages(orders[..|orders| - 1]) + Pow2(orders[|orders| - 1])
  }

  predicate NonIncreasing(orders: seq<nat>) { forall i, j :: 0 <= i < j < |orders| ==> orders[i] >= orders[j] }

  predicate Capped(orders: seq<nat>, cap: nat) { forall i :: 0 <= i < |orders| ==> orders[i] <= cap }

  /** The least number of blocks of order at most `cap` that make up `n` pages. */
  function Fewest(n: nat, cap: nat): nat {
    if cap == 0 then n else n % 2 + Fewest(n / 2, cap - 1)
  }

  lemma {:induction false} FewestAdd(n: nat, k: nat, cap: nat)
    requires k <= cap
    ensures Fewest(n + Pow2(k), cap) <= Fewest(n, cap) + 1
    decreases cap
  {
    if cap > 0 {
      if k > 0 {
        assert (n + Pow2(k)) / 2 == n / 2 + Pow2(k - 1) && (n + Pow2(k)) % 2 == n % 2;
        FewestAdd(n / 2, k - 1, cap - 1);
      } else if n % 2 == 1 {
        assert (n + 1) / 2 == n / 2 + Pow2(0);
        FewestAdd(n / 2, 0, cap - 1);
      }
    }
  }

  /** No decomposition has fewer blocks. */
  lemma {:induction false} FewestBound(orders: seq<nat>, cap: nat)
    requires Capped(orders, cap)
    ensures Fewest(Pages(orders), cap) <= |orders|
  {
    if orders == [] {
      FewestZero(cap);
    } else {
      var init, last := orders[..|orders| - 1], orders[|orders| - 1];
      FewestBound(init, cap);
      FewestAdd(Pages(init), last, cap);
    }
  }

  lemma {:induction false} FewestZero(cap: nat)
    ensures Fewest(0, cap) == 0
  {
    if cap > 0 { FewestZero(cap - 1); }
  }

  lemma Halves(n: nat, p: nat)
    requires 2 * p <= n
    ensures (n - 2 * p) / 2 == n / 2 - p && (n - 2 * p) % 2 == n % 2 && p <= n / 2 && (n < 4 * p ==> n / 2 < 2 * p)
  {
  }

  lemma {:induction false} FewestTake(n: nat, o: nat, cap: nat)
    requires o <= cap && Pow2(o) <= n && (o == cap || n < Pow2(o + 1))
    ensures Fewest(n, cap) == Fewest(n - Pow2(o), cap) + 1
    decreases cap
  {
    if cap > 0 {
      if o > 0 {
        var p := Pow2(o - 1);
        assert Pow2(o) == 2 * p && (o < cap ==> Pow2(o + 1) == 4 * p);
        Halves(n, p);
        FewestTake(n / 2, o - 1, cap - 1);
        assert Fewest(n, cap) == n % 2 + Fewest(n / 2, cap - 1);
        assert Fewest(n - Pow2(o), cap) == n % 2 + Fewest(n / 2 - p, cap - 1);
      } else {
        FewestZero(cap - 1);
      }
    }
  }

  /** Blocks of at most 2^9 pages, largest first, that make up exactly `total` pages. */
  predicate Decomposes(orders: seq<nat>, total: nat) {
    Pages(orders) == total && NonIncreasing(orders) && Capped(orders, MAX_ALLOC_ORDER)
  }

  /** A block of the order to try next fits; it is the largest that does until a request is refused. */
  ghost predicate Fits(order: nat, left: nat, refused: bool) {
    && order <= MAX_ALLOC_ORDER
    && (left > 0 ==> Pow2(order) <= left && order <= OrderFor(left) && (!refused ==> order == OrderFor(left)))
  }

  /** The next order to try after a block was taken. */
  function NextOrder(left: nat, order: nat): nat {
    if left > 0 && OrderFor(left) < order then OrderFor(left) else order
  }

  lemma NextOrderFits(order: nat, left: nat, refused: bool)
    requires Fits(order, left, refused) && left > 0
    ensures Fits(NextOrder(left - Pow2(order), order), left - Pow2(order), refused)
  {
    var rest := left - Pow2(order);
    if rest > 0 {
      OrderFits(rest);
      OrderMonotone(rest, left);
      if order <= OrderFor(rest) { Pow2Monotone(order, OrderFor(rest)); }
    }
  }

  // ---------------------------------------------------------------- the allocation loop

  /** A block the kernel granted: the page frame it starts at and its order. */
  datatype Block = Block(page: nat, order: nat) {
    predicate InMemory() { order <= MAX_ALLOC_ORDER && page * PAGE_SIZE + Pow2(order) * PAGE_SIZE <= TWO_64 }

    function Segment(): Segment { SL.Segment(page * PAGE_SIZE, Pow2(order) * PAGE_SIZE) }
  }

  function Orders(blocks: seq<Block>): seq<nat> { seq(|blocks|, i requires 0 <= i < |blocks| => blocks[i].order) }

  function Frames(blocks: seq<Block>): seq<nat> { seq(|blocks|, i requires 0 <= i < |blocks| => blocks[i].page) }

  function Segments(blocks: seq<Block>): seq<Segment> {
    seq(|blocks|, i requires 0 <= i < |blocks| => blocks[i].Segment())
  }

  predicate AllInMemory(blocks: seq<Block>) { forall i :: 0 <= i < |blocks| ==> blocks[i].InMemory() }

  /** A list of answers begins with a grant for a block of this order. */
  predicate Grants(answers: seq<Option<nat>>, order: nat) {
    answers != [] && answers[0].Some? && Block(answers[0].value, order).InMemory()
  }

  function Rest(answers: seq<Option<nat>>): seq<Option<nat>> { if answers == [] then [] else answers[1..] }

  /**
   The kernel's page allocator. It answers one request after another from a list that is its own
   business, and refuses when the list is used up. `held` are the blocks it granted and has not got back.
  */
  class Kernel {
    var answers: seq<Option<nat>>
    ghost var granted: seq<Block>
    ghost var refused: seq<nat>
    ghost var held: multiset<Block>

    constructor (answers: seq<Option<nat>>)
      ensures this.answers == answers && granted == [] && refused == [] && held == multiset{}
    {
      this.answers, granted, refused, held := answers, [], [], multiset{};
    }

    method AllocPages(order: nat) returns (page: Option<nat>)
      requires order <= MAX_ALLOC_ORDER
      modifies this
      ensures answers == Rest(old(answers)) && (page.Some? <==> Grants(old(answers), order))
      ensures page.None? ==> refused == old(refused) + [order] && granted == old(granted) && held == old(held)
      ensures page.Some? ==> page == old(answers)[0] && Block(page.value, order).InMemory()
      ensures page.Some? ==> refused == old(refused) && granted == old(granted) + [Block(page.value, order)]
      ensures page.Some? ==> held == old(held) + multiset{Block(page.value, order)}
    {
      page := if Grants(answers, order) then answers[0] else None;
      answers := Rest(answers);
      if page.Some? {
        granted := granted + [Block(page.value, order)];
        held := held + multiset{Block(page.value, order)};
      } else {
        refused := refused + [order];
      }
    }

    method FreePages(page: nat, order: nat)
      requires Block(page, order) in held
      modifies this`held
      ensures held == old(held) - multiset{Block(page, order)}
    {
      held := held - multiset{Block(page, order)};
    }
  }

  // ---------------------------------------------------------------- what a list of answers leads to

  /** The blocks granted, the orders refused, and whether the size was made up. */
  datatype Session = Session(granted: seq<Block>, refused: seq<nat>, done: bool)

  ghost function Serve(answers: seq<Option<nat>>, order: nat, left: nat): Session
    requires Fits(order, left, true)
    decreases left, order
  {
    if left == 0 then Session([], [], true)
    else if Grants(answers, order) then
      NextOrderFits(order, left, true);
      var s := Serve(Rest(answers), NextOrder(left - Pow2(order), order), left - Pow2(order));
      s.(granted := [Block(answers[0].value, order)] + s.granted)
    else if order == 0 then Session([], [0], false)
    else
      Pow2Monotone(order - 1, order);
      var s := Serve(Rest(answers), order - 1, left);
      s.(refused := [order] + s.refused)
  }

  lemma {:induction false} PagesCons(order: nat, orders: seq<nat>)
    ensures Pages([order] + orders) == Pow2(order) + Pages(orders)
  {
    if orders == [] {
      assert [order] + orders == [order] && Pages([order]) == Pages([order][..0]) + Pow2(order);
    } else {
      assert ([order] + orders)[..|orders|] == [order] + orders[..|orders| - 1];
      PagesCons(order, orders[..|orders| - 1]);
    }
  }

  /** What a session promises, whatever the answers are. */
  ghost predicate Meets(s: Session, order: nat, left: nat) {
    && (s.done <==> 0 !in s.refused) && AllInMemory(s.granted) && |s.granted| <= left
    && NonIncreasing(Orders(s.granted)) && Capped(Orders(s.granted), order)
    && (s.done ==> Pages(Orders(s.granted)) == left)
    && Frugal(s, order, left)
  }

  function Least(n: nat): nat { Fewest(n, MAX_ALLOC_ORDER) }

  /** Without a refusal no block is wasted. */
  ghost predicate Frugal(s: Session, order: nat, left: nat) {
    s.done && s.refused == [] && Fits(order, left, false) ==> |s.granted| == Least(left)
  }

  lemma GrantFrugal(b: Block, s: Session, order: nat, left: nat)
    requires Fits(order, left, true) && left > 0 && Frugal(s, NextOrder(left - Pow2(order), order), left - Pow2(order))
    ensures Frugal(s.(granted := [b] + s.granted), order, left)
  {
    if s.done && s.refused == [] && Fits(order, left, false) {
      FewestNext(order, left);
      assert |s.granted| == Least(left - Pow2(order));
    }
  }

  lemma FewestNext(order: nat, left: nat)
    requires Fits(order, left, false) && left > 0
    ensures Fits(NextOrder(left - Pow2(order), order), left - Pow2(order), false)
    ensures Least(left) == Least(left - Pow2(order)) + 1
  {
    NextOrderFits(order, left, false);
    OrderFits(left);
    FewestTake(left, order, MAX_ALLOC_ORDER);
  }

  lemma GrantMeets(b: Block, s: Session, order: nat, left: nat)
    requires Fits(order, left, true) && left > 0 && b.order == order && b.InMemory()
    requires Meets(s, NextOrder(left - Pow2(order), order), left - Pow2(order))
    ensures Meets(s.(granted := [b] + s.granted), order, left)
  {
    var all, tail := [b] + s.granted, Orders(s.granted);
    assert Orders(all) == [order] + tail;
    PagesCons(order, tail);
    ConsOrdered(order, tail);
    GrantFrugal(b, s, order, left);
  }

  lemma ConsOrdered(order: nat, tail: seq<nat>)
    requires NonIncreasing(tail) && Capped(tail, order)
    ensures NonIncreasing([order] + tail) && Capped([order] + tail, order)
  {
  }

  /** Whatever the kernel answers, the blocks granted are of non-increasing orders up to 9 and sum exactly to the size if it is made up. */
  lemma {:induction false} ServeMeets(answers: seq<Option<nat>>, order: nat, left: nat)
    requires Fits(order, left, true)
    ensures Meets(Serve(answers, order, left), order, left)
    decreases left, order
  {
    if left == 0 {
      FewestZero(MAX_ALLOC_ORDER);
    } else if Grants(answers, order) {
      NextOrderFits(order, left, true);
      ServeMeets(Rest(answers), NextOrder(left - Pow2(order), order), left - Pow2(order));
      GrantMeets(Block(answers[0].value, order), Serve(Rest(answers), NextOrder(left - Pow2(order), order), left - Pow2(order)), order, left);
    } else if order > 0 {
      Pow2Monotone(order - 1, order);
      ServeMeets(Rest(answers), order - 1, left);
    }
  }

  /** Requests from this order down to a single page are all refused. */
  predicate RefusesAll(answers: seq<Option<nat>>, order: nat)
    decreases order
  {
    !Grants(answers, order) && (order > 0 ==> RefusesAll(Rest(answers), order - 1))
  }

  /** Nothing is granted if and only if the requests down to the first single page are all refused. */
  lemma {:induction false} NothingGranted(answers: seq<Option<nat>>, order: nat, left: nat)
    requires Fits(order, left, true) && left > 0
    ensures Serve(answers, order, left).granted == [] <==> RefusesAll(answers, order)
    ensures RefusesAll(answers, order) ==> !Serve(answers, order, left).done
    decreases order
  {
    if !Grants(answers, order) && order > 0 {
      Pow2Monotone(order - 1, order);
      NothingGranted(Rest(answers), order - 1, left);
    }
  }

  lemma {:induction false} RefusesAllExact(answers: seq<Option<nat>>, order: nat)
    ensures RefusesAll(answers, order) <==> forall k :: 0 <= k <= order && k < |answers| && answers[k].Some? ==> !Block(answers[k].value, order - k).InMemory()
    decreases order
  {
    if order > 0 {
      var rest := Rest(answers);
      RefusesAllExact(rest, order - 1);
      forall k | 0 < k <= order && k < |answers| ensures k - 1 < |rest| && rest[k - 1] == answers[k] && order - k == order - 1 - (k - 1) {}
      assert forall j :: 0 <= j < |rest| ==> rest[j] == answers[j + 1];
    }
  }

  /** The order is the largest that fits, or the next larger one was refused. */
  ghost predicate Largest(order: nat, left: nat, refused: seq<nat>) { order == OrderFor(left) || order + 1 in refused }

  lemma LargestNext(order: nat, left: nat, rest: nat, refused: seq<nat>)
    requires 0 < rest <= left && order <= OrderFor(left) && Largest(order, left, refused)
    ensures Largest(NextOrder(rest, order), rest, refused)
  {
    OrderMonotone(rest, left);
    var a, b := OrderFor(left), OrderFor(rest);
    LesserOrder(order, a, b, refused);
    assert NextOrder(rest, order) == if b < order then b else order;
  }

  lemma LesserOrder(order: nat, a: nat, b: nat, refused: seq<nat>)
    requires b <= a && order <= a && (order == a || order + 1 in refused)
    ensures var next := if b < order then b else order; next == b || next + 1 in refused
  {
  }

  /** Where block `k` was taken. */
  ghost predicate LargestAt(orders: seq<nat>, k: nat, left: nat, refused: seq<nat>)
    requires k < |orders|
  {
    Pages(orders[..k]) < left && Largest(orders[k], left - Pages(orders[..k]), refused)
  }

  lemma LargestCons(order: nat, tail: seq<nat>, k: nat, left: nat, refused: seq<nat>)
    requires k < |tail| && Pow2(order) <= left && LargestAt(tail, k, left - Pow2(order), refused)
    ensures LargestAt([order] + tail, k + 1, left, refused)
  {
    assert ([order] + tail)[..k + 1] == [order] + tail[..k];
    PagesCons(order, tail[..k]);
  }

  /** A block smaller than the largest that fits is taken only where the next larger order was refused. */
  lemma {:induction false} ServeLargest(answers: seq<Option<nat>>, order: nat, left: nat, before: seq<nat>, k: nat)
    requires Fits(order, left, true) && (left > 0 ==> Largest(order, left, before))
    requires k < |Serve(answers, order, left).granted|
    ensures LargestAt(Orders(Serve(answers, order, left).granted), k, left, before + Serve(answers, order, left).refused)
    decreases left, order, 1
  {
    if Grants(answers, order) {
      LargestGranted(answers, order, left, before, k);
    } else {
      LargestRefused(answers, order, left, before, k);
    }
  }

  lemma {:induction false} LargestRefused(answers: seq<Option<nat>>, order: nat, left: nat, before: seq<nat>, k: nat)
    requires Fits(order, left, true) && !Grants(answers, order)
    requires k < |Serve(answers, order, left).granted|
    ensures LargestAt(Orders(Serve(answers, order, left).granted), k, left, before + Serve(answers, order, left).refused)
    decreases left, order, 0
  {
    RefusedFirst(answers, order, left);
    var t := Serve(Rest(answers), order - 1, left);
    assert before + [order] + t.refused == before + ([order] + t.refused);
    assert (before + [order])[|before|] == order;
    ServeLargest(Rest(answers), order - 1, left, before + [order], k);
  }

  lemma RefusedFirst(answers: seq<Option<nat>>, order: nat, left: nat)
    requires Fits(order, left, true) && !Grants(answers, order) && Serve(answers, order, left).granted != []
    ensures order > 0 && left > 0 && Fits(order - 1, left, true)
    ensures var s, t := Serve(answers, order, left), Serve(Rest(answers), order - 1, left);
      s.granted == t.granted && s.refused == [order] + t.refused
  {
    Pow2Monotone(order - 1, order);
  }

  lemma {:induction false} LargestGranted(answers: seq<Option<nat>>, order: nat, left: nat, before: seq<nat>, k: nat)
    requires Fits(order, left, true) && left > 0 && Largest(order, left, before) && Grants(answers, order)
    requires k < |Serve(answers, order, left).granted|
    ensures LargestAt(Orders(Serve(answers, order, left).granted), k, left, before + Serve(answers, order, left).refused)
    decreases left, order, 0
  {
    NextOrderFits(order, left, true);
    var next, rest := NextOrder(left - Pow2(order), order), left - Pow2(order);
    var t := Serve(Rest(answers), next, rest);
    GrantedFirst(answers, order, left);
    if k == 0 {
      LargestFirst(order, Orders(t.granted), left, before, t.refused);
    } else {
      if rest > 0 { LargestNext(order, left, rest, before); }
      ServeLargest(Rest(answers), next, rest, before, k - 1);
      LargestCons(order, Orders(t.granted), k - 1, left, before + t.refused);
    }
  }

  lemma GrantedFirst(answers: seq<Option<nat>>, order: nat, left: nat)
    requires Fits(order, left, true) && left > 0 && Grants(answers, order)
    ensures Fits(NextOrder(left - Pow2(order), order), left - Pow2(order), true)
    ensures var s, t := Serve(answers, order, left), Serve(Rest(answers), NextOrder(left - Pow2(order), order), left - Pow2(order));
      Orders(s.granted) == [order] + Orders(t.granted) && s.refused == t.refused
  {
    NextOrderFits(order, left, true);
  }

  lemma LargestFirst(order: nat, tail: seq<nat>, left: nat, before: seq<nat>, refused: seq<nat>)
    requires left > 0 && Largest(order, left, before)
    ensures LargestAt([order] + tail, 0, left, before + refused)
  {
    assert ([order] + tail)[..0] == [] && Pages([]) == 0;
  }

  /** A failure that keeps a block: three pages, two granted at once, the third refused. */
  lemma FailureKeepsBlock(page: nat)
    requires Block(page, 1).InMemory()
    ensures OrderFor(3) == 1 && Fits(1, 3, true)
    ensures Serve([Some(page), None], 1, 3) == Session([Block(page, 1)], [0], false)
  {
    assert Rest([Some(page), None]) == [None] && NextOrder(1, 1) == 0;
  }

  method GetAllocOrder(size: nat, ghost n: nat) returns (order: nat)
    requires size == n * PAGE_SIZE < TWO_31
    ensures order == OrderFor(n)
  {
    AllocOrderPages(n);
    order := AllocOrder(size);
  }

  /** What is left after a block, and the order to try next: never a larger one. */
  method Reduce(restSize: nat, order: nat, ghost left: nat) returns (rest: nat, next: nat)
    requires restSize == (left + Pow2(order)) * PAGE_SIZE < TWO_31
    ensures rest == left * PAGE_SIZE && next == NextOrder(left, order)
  {
    rest, next := restSize - PAGE_SIZE * Pow2(order), order;
    if rest > 0 {
      var o := GetAllocOrder(rest, left);
      next := if o < order then o else order;
    }
  }

  /** The first `n` entries of the two tables are the blocks granted. */
  ghost predicate Recorded(granted: seq<Block>, pages: seq<nat>, orders: seq<nat>, n: nat) {
    && AllInMemory(granted) && n == |granted| <= |pages| == |orders|
    && pages[..n] == Frames(granted) && orders[..n] == Orders(granted)
  }

  /** The answers still to come complete what was granted and refused so far to the whole session. */
  ghost predicate Ahead(s: Session, granted: seq<Block>, refused: seq<nat>, whole: Session) {
    granted + s.granted == whole.granted && refused + s.refused == whole.refused && s.done == whole.done
  }

  /** One answer: what is to come after it, and whether the session ends there in failure. */
  lemma NextAnswer(answers: seq<Option<nat>>, order: nat, left: nat, granted: seq<Block>, refused: seq<nat>, whole: Session)
    returns (coming: Session)
    requires Fits(order, left, true) && left > 0 && Ahead(Serve(answers, order, left), granted, refused, whole)
    ensures Grants(answers, order) ==>
      && Fits(NextOrder(left - Pow2(order), order), left - Pow2(order), true)
      && coming == Serve(Rest(answers), NextOrder(left - Pow2(order), order), left - Pow2(order))
      && Ahead(coming, granted + [Block(answers[0].value, order)], refused, whole)
    ensures !Grants(answers, order) && order > 0 ==>
      && Fits(order - 1, left, true) && coming == Serve(Rest(answers), order - 1, left)
      && Ahead(coming, granted, refused + [order], whole)
    ensures !Grants(answers, order) && order == 0 ==> whole == Session(granted, refused + [0], false)
  {
    coming := Session([], [], true);
    if Grants(answers, order) {
      NextOrderFits(order, left, true);
      coming := Serve(Rest(answers), NextOrder(left - Pow2(order), order), left - Pow2(order));
      var b := [Block(answers[0].value, order)];
      assert granted + (b + coming.granted) == granted + b + coming.granted;
    } else if order > 0 {
      Pow2Monotone(order - 1, order);
      coming := Serve(Rest(answers), order - 1, left);
      assert refused + ([order] + coming.refused) == refused + [order] + coming.refused;
    }
  }

  /** Request one block and record it if granted. */
  method TakeOne(kernel: Kernel, pages: array<nat>, orders: array<nat>, n: nat, order: nat) returns (got: bool)
    requires pages != orders && n < pages.Length == orders.Length && order <= MAX_ALLOC_ORDER
    requires Recorded(kernel.granted, pages[..], orders[..], n) && kernel.held == multiset(kernel.granted)
    modifies kernel, pages, orders
    ensures (got <==> Grants(old(kernel.answers), order)) && kernel.answers == Rest(old(kernel.answers))
    ensures kernel.refused == old(kernel.refused) + if got then [] else [order]
    ensures kernel.granted == old(kernel.granted) + if got then [Block(old(kernel.answers)[0].value, order)] else []
    ensures Orders(kernel.granted) == old(Orders(kernel.granted)) + if got then [order] else []
    ensures Recorded(kernel.granted, pages[..], orders[..], if got then n + 1 else n) && kernel.held == multiset(kernel.granted)
  {
    var page := kernel.AllocPages(order);
    got := page.Some?;
    if got {
      orders[n] := order;
      pages[n] := page.value;
      assert orders[..n + 1] == old(orders[..n]) + [order] && pages[..n + 1] == old(pages[..n]) + [page.value];
    }
  }

  /** One request: take the block, or try half the size next. A refused single page ends the loop. */
  method Request(kernel: Kernel, pages: array<nat>, orders: array<nat>, n: nat, order: nat, restSize: nat, ghost left: nat)
    returns (ok: bool, m: nat, next: nat, rest: nat, ghost now: nat)
    requires pages != orders && n < pages.Length == orders.Length && Fits(order, left, true) && left > 0
    requires restSize == left * PAGE_SIZE < TWO_31
    requires Recorded(kernel.granted, pages[..], orders[..], n) && kernel.held == multiset(kernel.granted)
    modifies kernel, pages, orders
    ensures Recorded(kernel.granted, pages[..], orders[..], m) && kernel.held == multiset(kernel.granted)
    ensures kernel.answers == Rest(old(kernel.answers)) && rest == now * PAGE_SIZE
    ensures Grants(old(kernel.answers), order) ==>
      && ok && m == n + 1 && now == left - Pow2(order) && next == NextOrder(now, order) && kernel.refused == old(kernel.refused)
      && kernel.granted == old(kernel.granted) + [Block(old(kernel.answers)[0].value, order)]
    ensures !Grants(old(kernel.answers), order) ==>
      && (ok <==> order > 0) && m == n && now == left && next == (if ok then order - 1 else 0)
      && kernel.refused == old(kernel.refused) + [order] && kernel.granted == old(kernel.granted)
  {
    var got := TakeOne(kernel, pages, orders, n, order);
    ok, m, next, rest, now := true, n, 0, restSize, left;
    if got {
      m, now := n + 1, left - Pow2(order);
      rest, next := Reduce(restSize, order, now);
    } else if order == 0 {
      ok := false;
    } else {
      next := order - 1;
    }
  }

  /** One request, as one answer of the session `whole`. */
  method Follow(kernel: Kernel, pages: array<nat>, orders: array<nat>, n: nat, order: nat, restSize: nat, ghost left: nat, ghost whole: Session)
    returns (ok: bool, m: nat, next: nat, rest: nat, ghost now: nat)
    requires pages != orders && n + left <= pages.Length == orders.Length && Fits(order, left, true) && left > 0
    requires restSize == left * PAGE_SIZE < TWO_31
    requires Recorded(kernel.granted, pages[..], orders[..], n) && kernel.held == multiset(kernel.granted)
    requires Ahead(Serve(kernel.answers, order, left), kernel.granted, kernel.refused, whole)
    modifies kernel, pages, orders
    ensures Recorded(kernel.granted, pages[..], orders[..], m) && kernel.held == multiset(kernel.granted)
    ensures ok ==> rest == now * PAGE_SIZE && m + now <= orders.Length && (now < left || (now == left && next < order))
    ensures ok ==> Fits(next, now, true) && Ahead(Serve(kernel.answers, next, now), kernel.granted, kernel.refused, whole)
    ensures !ok ==> whole == Session(kernel.granted, kernel.refused, false)
  {
    ghost var coming := NextAnswer(kernel.answers, order, left, kernel.granted, kernel.refused, whole);
    ok, m, next, rest, now := Request(kernel, pages, orders, n, order, restSize, left);
    assert ok ==> coming == Serve(kernel.answers, next, now);
  }

  /** The loop follows the answers as Serve does. */
  method RequestBlocks(kernel: Kernel, size: nat, pages: array<nat>, orders: array<nat>) returns (ok: bool, n: nat)
    requires pages != orders && 0 < pages.Length == orders.Length && size == orders.Length * PAGE_SIZE < TWO_31
    requires kernel.granted == [] && kernel.refused == [] && kernel.held == multiset{}
    modifies kernel, pages, orders
    ensures Fits(OrderFor(orders.Length), orders.Length, true)
    ensures Serve(old(kernel.answers), OrderFor(orders.Length), orders.Length) == Session(kernel.granted, kernel.refused, ok)
    ensures Recorded(kernel.granted, pages[..], orders[..], n) && kernel.held == multiset(kernel.granted)
  {
    var restSize := size;
    ghost var left: nat := orders.Length;
    var order := GetAllocOrder(restSize, left);
    ok, n := true, 0;
    OrderFits(left);
    ghost var whole := Serve(kernel.answers, order, left);
    while restSize > 0
      invariant ok && restSize == left * PAGE_SIZE && n + left <= orders.Length && Fits(order, left, true)
      invariant Recorded(kernel.granted, pages[..], orders[..], n) && kernel.held == multiset(kernel.granted)
      invariant Ahead(Serve(kernel.answers, order, left), kernel.granted, kernel.refused, whole)
      decreases left, order
    {
      ok, n, order, restSize, left := Follow(kernel, pages, orders, n, order, restSize, left, whole);
      if !ok { return; }
    }
  }

  /** Take blocks until the size is made up or a single page is refused. */
  method TakeBlocks(kernel: Kernel, size: nat, pages: array<nat>, orders: array<nat>) returns (ok: bool, n: nat)
    requires pages != orders && 0 < pages.Length == orders.Length && size == orders.Length * PAGE_SIZE < TWO_31
    requires kernel.granted == [] && kernel.refused == [] && kernel.held == multiset{}
    modifies kernel, pages, orders
    ensures Fits(OrderFor(orders.Length), orders.Length, true)
    ensures Serve(old(kernel.answers), OrderFor(orders.Length), orders.Length) == Session(kernel.granted, kernel.refused, ok)
    ensures Recorded(kernel.granted, pages[..], orders[..], n) && kernel.held == multiset(kernel.granted)
    ensures ok <==> 0 !in kernel.refused
    ensures ok ==> Decomposes(Orders(kernel.granted), orders.Length)
    ensures ok && kernel.refused == [] ==> n == Fewest(orders.Length, MAX_ALLOC_ORDER)
  {
    ghost var answers := kernel.answers;
    ok, n := RequestBlocks(kernel, size, pages, orders);
    ServeMeets(answers, OrderFor(orders.Length), orders.Length);
    OrderFits(orders.Length);
  }

  // ---------------------------------------------------------------- the scatter list

  lemma {:induction false} BlocksValid(blocks: seq<Block>)
    requires AllInMemory(blocks)
    ensures ValidList(Segments(blocks))
  {
    forall i | 0 <= i < |blocks| ensures Segments(blocks)[i].Valid() { Pow2Monotone(blocks[i].order, 9); }
  }

  /** The segments hold as many pages as the blocks. */
  lemma {:induction false} BlocksLength(blocks: seq<Block>)
    ensures |Flatten(Segments(blocks))| == Pages(Orders(blocks))
  {
    if blocks != [] {
      var init, last := blocks[..|blocks| - 1], blocks[|blocks| - 1];
      BlocksLength(init);
      assert Segments(blocks) == Segments(init) + [last.Segment()] && Orders(blocks) == Orders(init) + [last.order];
      FlattenAppend(Segments(init), last.Segment());
      assert Orders(blocks)[..|blocks| - 1] == Orders(init);
    }
  }

  /** In the list of an allocation no segment reaches 2 GiB, so every lookup is exact. */
  lemma BlocksLookup(blocks: seq<Block>, n: nat)
    requires AllInMemory(blocks) && n < |Flatten(Segments(blocks))|
    ensures Lookup(Segments(blocks), n) == Flatten(Segments(blocks))[n]
  {
    BlocksValid(blocks);
    LookupExact(Segments(blocks), n);
    Pow2Monotone(blocks[Locate(Segments(blocks), n).0].order, 9);
  }

  method MakeSegments(pages: array<nat>, orders: array<nat>, n: nat, ghost blocks: seq<Block>) returns (segs: seq<Segment>)
    requires n == |blocks| <= pages.Length == orders.Length
    requires pages[..n] == Frames(blocks) && orders[..n] == Orders(blocks)
    ensures segs == Segments(blocks)
  {
    segs := [];
    var i := 0;
    while i < n
      invariant 0 <= i <= n && segs == Segments(blocks[..i])
    {
      assert pages[..n][i] == blocks[i].page && orders[..n][i] == blocks[i].order;
      segs := segs + [SL.Segment(pages[i] * PAGE_SIZE, Pow2(orders[i]) * PAGE_SIZE)];
      i := i + 1;
    }
    assert blocks[..n] == blocks;
  }

  /** The order of a block's length is the block's. */
  lemma OrderOfBlock(order: nat)
    ensures GetOrder(Pow2(order), 0) == order
  {
    SmallestOrder(GetOrder(Pow2(order), 0), order, Pow2(order));
  }

  lemma SmallestOrder(r: nat, order: nat, pages: nat)
    requires Pow2(r) >= pages && (r > 0 ==> Pow2(r - 1) < pages)
    requires Pow2(order) >= pages && (order > 0 ==> Pow2(order - 1) < pages)
    ensures r == order
  {
    if r < order { Pow2Monotone(r, order - 1); }
    if r > order { Pow2Monotone(order, r - 1); }
  }

  method FreeSegment(kernel: Kernel, seg: Segment, ghost block: Block)
    requires seg == block.Segment() && block in kernel.held
    modifies kernel`held
    ensures kernel.held == old(kernel.held) - multiset{block}
  {
    OrderOfBlock(block.order);
    kernel.FreePages(seg.phys / PAGE_SIZE, GetOrder(seg.length / PAGE_SIZE, 0));
  }

  lemma TakeOut(all: multiset<Block>, blocks: seq<Block>, i: nat)
    requires i < |blocks| && multiset(blocks) <= all
    ensures blocks[i] in all - multiset(blocks[..i])
    ensures all - multiset(blocks[..i]) - multiset{blocks[i]} == all - multiset(blocks[..i + 1])
  {
    assert blocks[..i + 1] == blocks[..i] + [blocks[i]] && blocks == blocks[..i + 1] + blocks[i + 1..];
    assert multiset(blocks[..i + 1]) == multiset(blocks[..i]) + multiset{blocks[i]};
  }

  /** Give the blocks of a scatter list back, each as a block of the order its length has. */
  method FreeList(kernel: Kernel, segs: seq<Segment>, ghost blocks: seq<Block>)
    requires segs == Segments(blocks) && multiset(blocks) <= kernel.held
    modifies kernel`held
    ensures kernel.held == old(kernel.held) - multiset(blocks)
  {
    var i := 0;
    while i < |segs|
      invariant 0 <= i <= |segs| && kernel.held == old(kernel.held) - multiset(blocks[..i])
    {
      TakeOut(old(kernel.held), blocks, i);
      FreeSegment(kernel, segs[i], blocks[i]);
      i := i + 1;
    }
    assert blocks[..i] == blocks;
  }

  /**
   Allocate memory for a size in bytes: its scatter list and its page table. It fails for a size of
   zero, when a single page is refused, or when the scatter list itself finds no memory, and only then. A
   failing call gives back the blocks of a scatter list that does not exist yet, that is none: it keeps
   memory if and only if any request was granted.
  */
  method AllocatePagesMemory(size: nat, answers: seq<Option<nat>>, listFits: bool)
    returns (ok: bool, segs: seq<Segment>, table: array<nat>, kernel: Kernel)
    requires PageAlign(size) < TWO_31
    ensures fresh(kernel) && (ok <==> size > 0 && 0 !in kernel.refused && listFits)
    ensures kernel.held == multiset(kernel.granted)
    ensures size == 0 ==> kernel.granted == []
    ensures var n := PageAlign(size) / PAGE_SIZE; size > 0 ==>
      && Fits(OrderFor(n), n, true)
      && Serve(answers, OrderFor(n), n) == Session(kernel.granted, kernel.refused, 0 !in kernel.refused)
      && (!ok ==> (kernel.held != multiset{} <==> !RefusesAll(answers, OrderFor(n))))
    ensures ok ==> segs == Segments(kernel.granted) && ValidList(segs)
    ensures ok ==> Decomposes(Orders(kernel.granted), PageAlign(size) / PAGE_SIZE)
    ensures ok ==> table.Length * PAGE_SIZE == PageAlign(size) && table[..] == Flatten(segs)
    ensures ok && kernel.refused == [] ==> |segs| == Fewest(table.Length, MAX_ALLOC_ORDER)
  {
    kernel := new Kernel(answers);
    var pageCnt := PageAlign(size) / PAGE_SIZE;
    table := new nat[pageCnt];
    ok, segs := false, [];
    if size > 0 {
      var pages, orders, n := new nat[pageCnt], new nat[pageCnt], 0;
      ok, n := TakeBlocks(kernel, PageAlign(size), pages, orders);
      NothingGranted(answers, OrderFor(pageCnt), pageCnt);
      ok := ok && listFits;
      if ok {
        segs := MakeSegments(pages, orders, n, kernel.granted);
        BlocksValid(kernel.granted);
        BlocksLength(kernel.granted);
        ExtractPages(segs, table);
      } else {
        FreeList(kernel, segs, []);
      }
    }
  }

  /** Freeing an allocation gives back everything it took. */
  method AllocateThenFree(size: nat, answers: seq<Option<nat>>) returns (ok: bool, kernel: Kernel)
    requires PageAlign(size) < TWO_31
    ensures ok ==> kernel.held == multiset{}
  {
    var segs, table;
    ok, segs, table, kernel := AllocatePagesMemory(size, answers, true);
    if ok {
      FreeList(kernel, segs, kernel.granted);
    }
  }
}
