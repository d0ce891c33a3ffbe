/** The small helpers of CflatCore.h that the containers build on: the
    `cflat_min` / `cflat_max` macros and the intrusive linked-list macros
    `cflat_ll_push` / `cflat_ll_pop`, plus the `Option` type the other modules
    use for a pointer that may be null and the `Outcome` of a call that may
    fault or loop.  (The power-of-two bodies that
    CflatCore.h repeats are the functions of `Bits`.) */
module Core {

  datatype Option<T> = None | Some(value: T)

  /** What a call does: returns a value, dereferences NULL, or never
      returns. */
  datatype Outcome<T> = Done(value: T) | Faults | Hangs

  /** `cflat_min(A, B)`: `A < B ? A : B`. */
  function Min(a: int, b: int): (r: int)
    ensures r == a || r == b
    ensures r <= a && r <= b
  {
    if a < b then a else b
  }

  /** `cflat_max(A, B)`: `A > B ? A : B`. */
  function Max(a: int, b: int): (r: int)
    ensures r == a || r == b
    ensures r >= a && r >= b
  {
    if a > b then a else b
  }

  /** The two macros split a pair: one gets the minimum, the other the maximum. */
  lemma MinMaxSplit(a: int, b: int)
    ensures Min(a, b) <= Max(a, b)
    ensures Min(a, b) + Max(a, b) == a + b
  {
  }

  /* ---------------------------------------------------------------------- */
  /*  Intrusive singly linked lists                                          */
  /* ---------------------------------------------------------------------- */

  /** Nodes are named by natural numbers; `link` holds each node's link field
      (the `prev` of an arena block), `top` the list head variable. */
  datatype LinkedStack = LinkedStack(top: Option<nat>, link: map<nat, Option<nat>>)

  /** `cflat_ll_push(top, node, link)`: `node->link = top, top = node`. */
  function LlPush(s: LinkedStack, node: nat): (r: LinkedStack)
    ensures r.top == Some(node)
    ensures node in r.link && r.link[node] == s.top
    ensures forall n :: n in s.link && n != node ==> n in r.link && r.link[n] == s.link[n]
  {
    LinkedStack(Some(node), s.link[node := s.top])
  }

  /** `cflat_ll_pop(top, link)`: `top = top->link`; the head must be a node. */
  function LlPop(s: LinkedStack): (r: LinkedStack)
    requires s.top.Some? && s.top.value in s.link
    ensures r.link == s.link
    ensures r.top == s.link[s.top.value]
  {
    LinkedStack(s.link[s.top.value], s.link)
  }

  /** `xs` is the list hanging from `top`: following the links from `top`
      visits exactly `xs` and then reaches null. */
  ghost predicate ListFrom(link: map<nat, Option<nat>>, top: Option<nat>, xs: seq<nat>)
    decreases |xs|
  {
    if xs == [] then top == None
    else top == Some(xs[0]) && xs[0] in link && ListFrom(link, link[xs[0]], xs[1..])
  }

  /** Rewriting the link of a node that is not on a list keeps the list. */
  lemma {:induction false} ListFromFrame(link: map<nat, Option<nat>>, top: Option<nat>, xs: seq<nat>, n: nat, v: Option<nat>)
    requires ListFrom(link, top, xs) && n !in xs
    ensures ListFrom(link[n := v], top, xs)
    decreases |xs|
  {
    if xs != [] {
      ListFromFrame(link, link[xs[0]], xs[1..], n, v);
    }
  }

  /** Pushing a node that is not on the list prepends it. */
  lemma LlPushList(s: LinkedStack, node: nat, xs: seq<nat>)
    requires ListFrom(s.link, s.top, xs) && node !in xs
    ensures ListFrom(LlPush(s, node).link, LlPush(s, node).top, [node] + xs)
  {
    ListFromFrame(s.link, s.top, xs, node, s.top);
    assert ([node] + xs)[1..] == xs;
  }

  /** Popping a non-empty list drops its head. */
  lemma LlPopList(s: LinkedStack, xs: seq<nat>)
    requires ListFrom(s.link, s.top, xs) && xs != []
    ensures s.top.Some? && s.top.value in s.link
    ensures ListFrom(LlPop(s).link, LlPop(s).top, xs[1..])
  {
  }

  /** `cflat_ll_pop` right after `cflat_ll_push` restores the old head. */
  lemma LlPopAfterPush(s: LinkedStack, node: nat)
    ensures LlPop(LlPush(s, node)).top == s.top
  {
  }
}
