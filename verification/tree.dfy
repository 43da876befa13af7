/**
 * The node store of the adaptive Huffman encoder (js/huffman.js).
 *
 * The source keeps every node object in the array `nodes` in creation order
 * and never deletes or reorders them; `swapNodes` exchanges fields between two
 * objects instead of moving them. A node object is therefore exactly an index
 * into the store, and node 0 is the root. Links (`parent`, `left`, `right`)
 * are indices, and an identity test such as `node.left === prev` is index
 * equality.
 */
module HuffmanTree {
  import opened Options

  /** One tree vertex. `weight` counts the occurrences folded into the node. */
  datatype Node = Node(
    id: int,
    weight: nat,
    symbol: Option<char>,
    parent: Option<nat>,
    left: Option<nat>,
    right: Option<nat>)

  /** The root is the node the source creates first and keeps in `root`. */
  const Root: nat := 0

  predicate InRange(link: Option<nat>, size: nat) {
    link.Some? ==> link.value < size
  }

  /** Every link points into the store, and only the root lacks a parent. */
  ghost predicate WellLinked(ns: seq<Node>) {
    && |ns| > 0
    && ns[Root].parent.None?
    && forall k :: 0 <= k < |ns| ==>
         && InRange(ns[k].parent, |ns|)
         && InRange(ns[k].left, |ns|)
         && InRange(ns[k].right, |ns|)
         && (k != Root ==> ns[k].parent.Some?)
  }

  /** Node c hangs below n, as its `left` or its `right`. */
  predicate Child(n: Node, c: nat) {
    n.left == Some(c) || n.right == Some(c)
  }

  /**
   * The child links give every node at most one parent and the root none: a
   * node has both children or none, its two children differ, the root is
   * nobody's child, and no node is the child of two nodes. So the part of the
   * store reachable from the root is a tree (`PathsUnique`, `RootPathShort`);
   * outside it a swap can make a node its own child. `addNode` links two
   * fresh nodes and `swapNodes` only moves a pair of child links from one
   * node to another, so every store keeps this.
   */
  ghost predicate TreeLinks(ns: seq<Node>) {
    && (forall k :: 0 <= k < |ns| ==> (ns[k].left.Some? <==> ns[k].right.Some?))
    && (forall k :: 0 <= k < |ns| && ns[k].left.Some? ==> ns[k].left != ns[k].right)
    && (forall k :: 0 <= k < |ns| ==> !Child(ns[k], Root))
    && (forall j, k, c :: 0 <= j < |ns| && 0 <= k < |ns| && Child(ns[j], c) && Child(ns[k], c) ==> j == k)
  }

  /** Two stores of one size whose nodes have the same children. */
  ghost predicate SameLinks(ns: seq<Node>, ns': seq<Node>) {
    && |ns'| == |ns|
    && forall k :: 0 <= k < |ns| ==> ns'[k].left == ns[k].left && ns'[k].right == ns[k].right
  }

  lemma SameLinksTree(ns: seq<Node>, ns': seq<Node>)
    requires TreeLinks(ns) && SameLinks(ns, ns')
    ensures TreeLinks(ns')
  {
    assert forall k, c :: 0 <= k < |ns| ==> (Child(ns'[k], c) <==> Child(ns[k], c));
  }

  // ---------------------------------------------------------------------------
  // Node ids
  // ---------------------------------------------------------------------------

  /**
   * The id of the node created k-th. The root gets `2 * alphabetSize`; each
   * split appends the new NYT node (id of the old NYT minus 2) at an odd index
   * and then the symbol node (id of the old NYT minus 1) at the next index.
   */
  function IdAt(alphabetSize: nat, k: nat): int {
    if k == 0 then 2 * alphabetSize
    else if k % 2 == 1 then 2 * alphabetSize - k - 1
    else 2 * alphabetSize - k + 1
  }

  /** Index of the NYT node once `count` symbols have been registered. */
  function NytIndex(count: nat): nat {
    if count == 0 then Root else 2 * count - 1
  }

  /**
   * The shape every reachable store has: well linked, child links forming a
   * tree, ids given by creation order and never changed, at most one root and
   * `alphabetSize` splits, and no symbol on the root.
   */
  ghost predicate Shaped(ns: seq<Node>, alphabetSize: nat) {
    && WellLinked(ns)
    && |ns| <= 2 * alphabetSize + 1
    && ns[Root].symbol.None?
    && TreeLinks(ns)
    && forall k {:trigger ns[k].id} :: 0 <= k < |ns| ==> ns[k].id == IdAt(alphabetSize, k)
  }

  /** Ids are pairwise distinct. */
  lemma IdsDistinct(alphabetSize: nat, j: nat, k: nat)
    requires j != k
    ensures IdAt(alphabetSize, j) != IdAt(alphabetSize, k)
  {
  }

  /** The root has the largest id of all nodes, and no id in the store is negative. */
  lemma RootIdLargest(alphabetSize: nat, k: nat)
    ensures k != Root ==> IdAt(alphabetSize, k) < IdAt(alphabetSize, Root)
    ensures k <= 2 * alphabetSize ==> IdAt(alphabetSize, k) >= 0
  {
  }

  /** The two nodes created by the `count`-th split have lower ids than every earlier node. */
  lemma NewIdsBelowEarlier(alphabetSize: nat, count: nat, j: nat)
    requires j < 2 * count + 1
    ensures IdAt(alphabetSize, 2 * count + 1) < IdAt(alphabetSize, j)
    ensures IdAt(alphabetSize, 2 * count + 2) < IdAt(alphabetSize, j)
    ensures IdAt(alphabetSize, 2 * count + 1) == IdAt(alphabetSize, NytIndex(count)) - 2
    ensures IdAt(alphabetSize, 2 * count + 2) == IdAt(alphabetSize, NytIndex(count)) - 1
  {
  }

  // ---------------------------------------------------------------------------
  // Bit length of a character code
  // ---------------------------------------------------------------------------

  /** Number of binary digits of `n` (`n.toString(2).length`), so 0 and 1 both take one digit. */
  function BitLength(n: nat): (r: nat)
    ensures r >= 1
  {
    if n < 2 then 1 else 1 + BitLength(n / 2)
  }

  function Pow2(k: nat): (r: nat)
    ensures r >= 1
  {
    if k == 0 then 1 else 2 * Pow2(k - 1)
  }

  /** `BitLength(n)` is the unique `b` with `2^(b-1) <= n < 2^b` (for n >= 1). */
  lemma {:induction false} BitLengthBounds(n: nat)
    ensures n < Pow2(BitLength(n))
    ensures n >= 1 ==> Pow2(BitLength(n) - 1) <= n
  {
    if n >= 2 {
      BitLengthBounds(n / 2);
    }
  }

  // ---------------------------------------------------------------------------
  // Single-node updates
  // ---------------------------------------------------------------------------

  /** `increaseWeight`: one more occurrence folded into node k. */
  function Bump(ns: seq<Node>, k: nat): (r: seq<Node>)
    requires k < |ns|
    ensures |r| == |ns| && r[k].weight == ns[k].weight + 1
  {
    ns[k := ns[k].(weight := ns[k].weight + 1)]
  }

  /** A bump adds exactly one to node k's weight and changes nothing else. */
  lemma BumpAddsOne(ns: seq<Node>, k: nat)
    requires k < |ns|
    ensures var r := Bump(ns, k);
      && |r| == |ns|
      && r[k].weight == ns[k].weight + 1
      && r[k] == ns[k].(weight := r[k].weight)
      && forall j :: 0 <= j < |ns| && j != k ==> r[j] == ns[j]
  {
  }

  /**
   * `swapNodes`: exchange `left`, `right`, `parent`, `symbol` and `weight` of
   * nodes a and b. Ids stay, and no neighbour is re-pointed: the old parents
   * still name a and b as children and the old children still name a and b
   * as parent.
   */
  function Swapped(ns: seq<Node>, a: nat, b: nat): (r: seq<Node>)
    requires a < |ns| && b < |ns|
    ensures |r| == |ns| && r[a].id == ns[a].id && r[b].id == ns[b].id
  {
    var x, y := ns[a], ns[b];
    ns[a := x.(left := y.left, right := y.right, parent := y.parent, symbol := y.symbol, weight := y.weight)]
      [b := y.(left := x.left, right := x.right, parent := x.parent, symbol := x.symbol, weight := x.weight)]
  }

  /** The symbol held by each node, in store order. */
  function SymbolSlots(ns: seq<Node>): (r: seq<Option<char>>)
    ensures |r| == |ns| && forall k {:trigger r[k]} :: 0 <= k < |ns| ==> r[k] == ns[k].symbol
  {
    seq(|ns|, k requires 0 <= k < |ns| => ns[k].symbol)
  }

  /** A swap moves all five fields of a onto b and back, keeping both ids and every other node. */
  lemma SwapExchanges(ns: seq<Node>, a: nat, b: nat)
    requires a < |ns| && b < |ns| && a != b
    ensures |Swapped(ns, a, b)| == |ns|
    ensures Swapped(ns, a, b)[a] == ns[b].(id := ns[a].id)
    ensures Swapped(ns, a, b)[b] == ns[a].(id := ns[b].id)
    ensures forall k :: 0 <= k < |ns| && k != a && k != b ==> Swapped(ns, a, b)[k] == ns[k]
  {
  }

  /** Swapping the same pair twice restores the store. */
  lemma {:induction false} SwapTwice(ns: seq<Node>, a: nat, b: nat)
    requires a < |ns| && b < |ns|
    ensures Swapped(Swapped(ns, a, b), a, b) == ns
  {
    var once := Swapped(ns, a, b);
    var twice := Swapped(once, a, b);
    assert |twice| == |ns|;
    forall k | 0 <= k < |ns|
      ensures twice[k] == ns[k]
    {
      if k == a || k == b {
        assert twice[k].id == ns[k].id;
      }
    }
  }

  /** A swap between two nodes of equal weight changes no node's weight. */
  lemma SwapKeepsWeights(ns: seq<Node>, a: nat, b: nat)
    requires a < |ns| && b < |ns| && ns[a].weight == ns[b].weight
    ensures forall k :: 0 <= k < |ns| ==> Swapped(ns, a, b)[k].weight == ns[k].weight
  {
  }

  /** A swap only moves symbols between nodes: the multiset of held symbols is unchanged. */
  lemma {:induction false} SwapKeepsSymbols(ns: seq<Node>, a: nat, b: nat)
    requires a < |ns| && b < |ns|
    ensures multiset(SymbolSlots(Swapped(ns, a, b))) == multiset(SymbolSlots(ns))
  {
    var t := SymbolSlots(ns);
    if a != b {
      assert SymbolSlots(Swapped(ns, a, b)) == t[a := t[b]][b := t[a]];
      var u := t[a := t[b]];
      assert multiset(u) == multiset(t) - multiset{t[a]} + multiset{t[b]};
      assert u[b] == t[b];
      assert multiset(u[b := t[a]]) == multiset(u) - multiset{t[b]} + multiset{t[a]};
    } else {
      assert Swapped(ns, a, b) == ns;
    }
  }

  /** A swap of two non-root nodes keeps the store's shape, ids included. */
  lemma SwapShaped(ns: seq<Node>, alphabetSize: nat, a: nat, b: nat)
    requires Shaped(ns, alphabetSize) && a < |ns| && b < |ns| && a != Root && b != Root
    ensures Shaped(Swapped(ns, a, b), alphabetSize)
  {
    var r := Swapped(ns, a, b);
    forall k | 0 <= k < |r|
      ensures InRange(r[k].parent, |r|) && InRange(r[k].left, |r|) && InRange(r[k].right, |r|)
      ensures k != Root ==> r[k].parent.Some?
      ensures r[k].id == IdAt(alphabetSize, k)
    {
    }
    SwapTreeLinks(ns, a, b);
  }

  /** A swap hands a's pair of children to b and b's to a, so every node keeps at most one parent by child link. */
  lemma SwapTreeLinks(ns: seq<Node>, a: nat, b: nat)
    requires TreeLinks(ns) && a < |ns| && b < |ns|
    ensures TreeLinks(Swapped(ns, a, b))
  {
    var r := Swapped(ns, a, b);
    forall k | 0 <= k < |r|
      ensures var m := if k == a then b else if k == b then a else k;
        r[k].left == ns[m].left && r[k].right == ns[m].right
    {
    }
    forall j, k, c: nat | 0 <= j < |r| && 0 <= k < |r| && Child(r[j], c) && Child(r[k], c)
      ensures j == k
    {
      var mj := if j == a then b else if j == b then a else j;
      var mk := if k == a then b else if k == b then a else k;
      assert Child(ns[mj], c) && Child(ns[mk], c);
    }
  }

  lemma BumpShaped(ns: seq<Node>, alphabetSize: nat, k: nat)
    requires Shaped(ns, alphabetSize) && k < |ns|
    ensures Shaped(Bump(ns, k), alphabetSize)
    ensures SymbolSlots(Bump(ns, k)) == SymbolSlots(ns)
  {
    var r := Bump(ns, k);
    forall j | 0 <= j < |r|
      ensures InRange(r[j].parent, |r|) && InRange(r[j].left, |r|) && InRange(r[j].right, |r|)
      ensures j != Root ==> r[j].parent.Some?
      ensures r[j].id == IdAt(alphabetSize, j)
    {
    }
    SameLinksTree(ns, r);
  }

  // ---------------------------------------------------------------------------
  // addNode: splitting the NYT node
  // ---------------------------------------------------------------------------

  /**
   * The store after `addNode(s)` succeeds: the NYT node gets the new NYT node
   * as left child and the new symbol node as right child; both new nodes have
   * weight 0 and the old NYT node as parent, and they are appended NYT first.
   */
  function Split(ns: seq<Node>, nyt: nat, s: char): (r: seq<Node>)
    requires nyt < |ns|
    ensures |r| == |ns| + 2 && r[nyt].left == Some(|ns|) && r[nyt].right == Some(|ns| + 1)
    ensures r[|ns| + 1].symbol == Some(s) && r[|ns|].symbol == None
  {
    var n := |ns|;
    var old_nyt := ns[nyt];
    ns[nyt := old_nyt.(left := Some(n), right := Some(n + 1))]
      + [Node(old_nyt.id - 2, 0, None, Some(nyt), None, None),
         Node(old_nyt.id - 1, 0, Some(s), Some(nyt), None, None)]
  }

  /** A split appends exactly the two described nodes and changes nothing but the old NYT node's children. */
  lemma SplitAppends(ns: seq<Node>, nyt: nat, s: char)
    requires nyt < |ns|
    ensures var r := Split(ns, nyt, s);
      && |r| == |ns| + 2
      && r[|ns|] == Node(ns[nyt].id - 2, 0, None, Some(nyt), None, None)
      && r[|ns| + 1] == Node(ns[nyt].id - 1, 0, Some(s), Some(nyt), None, None)
      && r[nyt] == ns[nyt].(left := Some(|ns|), right := Some(|ns| + 1))
      && forall k :: 0 <= k < |ns| && k != nyt ==> r[k] == ns[k]
  {
  }

  /** A split adds exactly one held symbol, `s`, and one empty slot, the new NYT node. */
  lemma SplitSymbols(ns: seq<Node>, nyt: nat, s: char)
    requires nyt < |ns|
    ensures multiset(SymbolSlots(Split(ns, nyt, s))) == multiset(SymbolSlots(ns)) + multiset{None, Some(s)}
  {
    var r := Split(ns, nyt, s);
    assert SymbolSlots(r) == SymbolSlots(ns) + [None, Some(s)];
  }

  /** Splitting the NYT node of a store with `count` symbols keeps the shape when the alphabet has room. */
  lemma SplitShaped(ns: seq<Node>, alphabetSize: nat, count: nat, s: char)
    requires Shaped(ns, alphabetSize) && |ns| == 2 * count + 1 && count < alphabetSize
    ensures NytIndex(count) < |ns|
    ensures Shaped(Split(ns, NytIndex(count), s), alphabetSize)
  {
    var nyt := NytIndex(count);
    var r := Split(ns, nyt, s);
    forall k | 0 <= k < |r|
      ensures InRange(r[k].parent, |r|) && InRange(r[k].left, |r|) && InRange(r[k].right, |r|)
      ensures k != Root ==> r[k].parent.Some?
      ensures r[k].id == IdAt(alphabetSize, k)
    {
      if k >= |ns| {
        NewIdsBelowEarlier(alphabetSize, count, 0);
      }
    }
    SplitTreeLinks(ns, nyt, s);
  }

  /** The two children a split gives the NYT node are fresh, so every node keeps at most one parent by child link. */
  lemma SplitTreeLinks(ns: seq<Node>, nyt: nat, s: char)
    requires WellLinked(ns) && TreeLinks(ns) && nyt < |ns|
    ensures TreeLinks(Split(ns, nyt, s))
  {
    var r := Split(ns, nyt, s);
    forall j, k, c: nat | 0 <= j < |r| && 0 <= k < |r| && Child(r[j], c) && Child(r[k], c)
      ensures j == k
    {
      if c < |ns| {
        assert j != nyt && k != nyt && j < |ns| && k < |ns|;
        assert Child(ns[j], c) && Child(ns[k], c);
      } else {
        assert j == nyt && k == nyt;
      }
    }
  }

  // ---------------------------------------------------------------------------
  // Linear scans
  // ---------------------------------------------------------------------------

  /**
   * What `getHighestIdInBlock(w)` has found after looking at the first n
   * nodes: the node of weight w whose id beats the best so far, starting from
   * -1; on equal ids the earlier node stays.
   */
  function HighestAmong(ns: seq<Node>, w: nat, n: nat): (r: Option<nat>)
    requires n <= |ns|
    ensures r.Some? ==> r.value < n && ns[r.value].weight == w && ns[r.value].id >= 0
  {
    if n == 0 then None
    else
      var h := HighestAmong(ns, w, n - 1);
      var best := if h.Some? then ns[h.value].id else -1;
      if ns[n - 1].weight == w && ns[n - 1].id > best then Some(n - 1) else h
  }

  function HighestInBlock(ns: seq<Node>, w: nat): (r: Option<nat>)
    ensures r.Some? ==> r.value < |ns| && ns[r.value].weight == w
  {
    HighestAmong(ns, w, |ns|)
  }

  /**
   * The scan returns a node of weight w whose id is at least that of every
   * node of weight w (ids below 0 are never picked), and returns nothing iff
   * no node of weight w has an id of 0 or more.
   */
  lemma {:induction false} HighestAmongSpec(ns: seq<Node>, w: nat, n: nat)
    requires n <= |ns|
    ensures var h := HighestAmong(ns, w, n);
      && (h.Some? ==>
            && ns[h.value].weight == w
            && ns[h.value].id >= 0
            && forall j :: 0 <= j < n && ns[j].weight == w && ns[j].id >= 0 ==> ns[j].id <= ns[h.value].id)
      && (h.None? <==> forall j :: 0 <= j < n && ns[j].weight == w ==> ns[j].id < 0)
  {
    if n > 0 {
      HighestAmongSpec(ns, w, n - 1);
    }
  }

  /** What `findSymbolNode(s)` returns when its loop starts at index i: the first node from i on holding s. */
  function FindFrom(ns: seq<Node>, s: char, i: nat): (r: Option<nat>)
    requires i <= |ns|
    ensures r.Some? ==> i <= r.value < |ns| && ns[r.value].symbol == Some(s)
    decreases |ns| - i
  {
    if i == |ns| then None
    else if ns[i].symbol == Some(s) then Some(i)
    else FindFrom(ns, s, i + 1)
  }

  function FindSymbol(ns: seq<Node>, s: char): (r: Option<nat>)
    ensures r.Some? ==> r.value < |ns| && ns[r.value].symbol == Some(s)
  {
    FindFrom(ns, s, 0)
  }

  lemma {:induction false} FindFromSpec(ns: seq<Node>, s: char, i: nat)
    requires i <= |ns|
    ensures var r := FindFrom(ns, s, i);
      && (r.Some? ==> ns[r.value].symbol == Some(s) && forall j :: i <= j < r.value ==> ns[j].symbol != Some(s))
      && (r.None? <==> forall j :: i <= j < |ns| ==> ns[j].symbol != Some(s))
    decreases |ns| - i
  {
    if i < |ns| && ns[i].symbol != Some(s) {
      FindFromSpec(ns, s, i + 1);
    }
  }

  /** The search returns the lowest-index node holding s, and nothing iff no node holds s. */
  lemma FindSymbolSpec(ns: seq<Node>, s: char)
    ensures var r := FindSymbol(ns, s);
      && (r.Some? ==> ns[r.value].symbol == Some(s) && forall j :: 0 <= j < r.value ==> ns[j].symbol != Some(s))
      && (r.None? <==> forall j :: 0 <= j < |ns| ==> ns[j].symbol != Some(s))
  {
    FindFromSpec(ns, s, 0);
  }

  /** A symbol that occurs in the store is found. */
  lemma FindHeldSymbol(ns: seq<Node>, s: char)
    requires Some(s) in multiset(SymbolSlots(ns))
    ensures FindSymbol(ns, s).Some?
  {
    var slots := SymbolSlots(ns);
    assert Some(s) in slots;
    var k :| 0 <= k < |slots| && slots[k] == Some(s);
    FindSymbolSpec(ns, s);
  }

  // ---------------------------------------------------------------------------
  // getHuffmanCode: the parent walk
  // ---------------------------------------------------------------------------

  /** The node reached after k steps of `node = node.parent`, staying put at the root. */
  function Climb(ns: seq<Node>, i: nat, k: nat): (r: nat)
    requires WellLinked(ns) && i < |ns|
    ensures r < |ns|
    decreases k
  {
    if k == 0 || i == Root then i else Climb(ns, ns[i].parent.value, k - 1)
  }

  /**
   * The code the parent walk from i produces within `fuel` steps, root first:
   * at each step the bit is '0' when the child is its parent's `left` and
   * '1' otherwise. None when the root is not reached within `fuel` steps.
   */
  function CodeOf(ns: seq<Node>, i: nat, fuel: nat): (r: Option<string>)
    requires WellLinked(ns) && i < |ns|
    ensures i == Root <==> r == Some([])
    ensures r.Some? ==> |r.value| <= fuel
    decreases fuel
  {
    if i == Root then Some([])
    else if fuel == 0 then None
    else
      var up := ns[i].parent.value;
      match CodeOf(ns, up, fuel - 1)
      case None => None
      case Some(c) => Some(c + [if ns[up].left == Some(i) then '0' else '1'])
  }

  /**
   * `getHuffmanCode(node)`. The walk is given as many steps as there are
   * nodes; by `CodeTerminates` it then fails only when the source's walk never
   * reaches the root.
   */
  function Code(ns: seq<Node>, i: nat): (r: Option<string>)
    requires WellLinked(ns) && i < |ns|
    ensures i == Root <==> r == Some([])
    ensures r.Some? ==> |r.value| <= |ns|
  {
    CodeOf(ns, i, |ns|)
  }

  lemma {:induction false} ClimbAdd(ns: seq<Node>, i: nat, m: nat, n: nat)
    requires WellLinked(ns) && i < |ns|
    ensures Climb(ns, i, m + n) == Climb(ns, Climb(ns, i, m), n)
    decreases m
  {
    if m > 0 && i != Root {
      ClimbAdd(ns, ns[i].parent.value, m - 1, n);
    }
  }

  /**
   * A found code has one bit per parent step: the walk reaches the root after
   * exactly |c| steps and not before, and the bit for step j (counted from the
   * node) is '0' iff the node reached after j steps is the `left` of the node
   * reached after j + 1 steps.
   */
  lemma {:induction false} CodeOfSteps(ns: seq<Node>, i: nat, fuel: nat)
    requires WellLinked(ns) && i < |ns| && CodeOf(ns, i, fuel).Some?
    ensures var c := CodeOf(ns, i, fuel).value;
      && |c| <= fuel
      && Climb(ns, i, |c|) == Root
      && (forall j :: 0 <= j < |c| ==> Climb(ns, i, j) != Root)
      && (forall j :: 0 <= j < |c| ==>
            (c[|c| - 1 - j] == '0' <==> ns[Climb(ns, i, j + 1)].left == Some(Climb(ns, i, j))))
      && (forall j :: 0 <= j < |c| ==> c[j] == '0' || c[j] == '1')
    decreases fuel
  {
    if i != Root {
      var up := ns[i].parent.value;
      CodeOfSteps(ns, up, fuel - 1);
      var c' := CodeOf(ns, up, fuel - 1).value;
      var c := CodeOf(ns, i, fuel).value;
      assert c == c' + [if ns[up].left == Some(i) then '0' else '1'];
      forall j | 0 <= j < |c|
        ensures Climb(ns, i, j + 1) == Climb(ns, up, j)
      {
      }
    }
  }

  /** Fuel beyond what a found code needed changes nothing. */
  lemma {:induction false} CodeOfMoreFuel(ns: seq<Node>, i: nat, fuel: nat, more: nat)
    requires WellLinked(ns) && i < |ns| && CodeOf(ns, i, fuel).Some? && fuel <= more
    ensures CodeOf(ns, i, more) == CodeOf(ns, i, fuel)
    decreases fuel
  {
    if i != Root {
      CodeOfMoreFuel(ns, ns[i].parent.value, fuel - 1, more - 1);
    }
  }

  /** A walk that reaches the root within `fuel` steps yields a code. */
  lemma {:induction false} ReachedGivesCode(ns: seq<Node>, i: nat, k: nat, fuel: nat)
    requires WellLinked(ns) && i < |ns| && Climb(ns, i, k) == Root && k <= fuel
    ensures CodeOf(ns, i, fuel).Some?
    decreases k
  {
    if i != Root {
      ReachedGivesCode(ns, ns[i].parent.value, k - 1, fuel - 1);
    }
  }

  /** Pigeonhole: pairwise distinct naturals below n number at most n. */
  lemma {:induction false} DistinctBelow(s: seq<nat>, n: nat)
    requires forall j :: 0 <= j < |s| ==> s[j] < n
    requires forall a, b :: 0 <= a < b < |s| ==> s[a] != s[b]
    ensures |s| <= n
    decreases |s|
  {
    if |s| > 0 {
      var x := s[|s| - 1];
      var t: seq<nat> := seq(|s| - 1, j requires 0 <= j < |s| - 1 => if s[j] > x then s[j] - 1 else s[j]);
      forall a, b | 0 <= a < b < |t|
        ensures t[a] != t[b]
      {
        assert s[a] != s[b] && s[a] != x && s[b] != x;
      }
      DistinctBelow(t, n - 1);
    }
  }

  /** A walk that reaches the root at all reaches it in fewer steps than there are nodes. */
  lemma {:induction false} ReachWithin(ns: seq<Node>, i: nat, k: nat) returns (k': nat)
    requires WellLinked(ns) && i < |ns| && Climb(ns, i, k) == Root
    ensures k' < |ns| && Climb(ns, i, k') == Root
    decreases k
  {
    if k < |ns| {
      return k;
    }
    var visited: seq<nat> := seq(|ns| + 1, j requires 0 <= j < |ns| + 1 => Climb(ns, i, j));
    if forall a, b :: 0 <= a < b < |visited| ==> visited[a] != visited[b] {
      DistinctBelow(visited, |ns|);
      assert false;
    }
    var a, b :| 0 <= a < b < |visited| && visited[a] == visited[b];
    ClimbAdd(ns, i, b, k - b);
    ClimbAdd(ns, i, a, k - b);
    k' := ReachWithin(ns, i, k - (b - a));
  }

  /** `getHuffmanCode(node)` returns iff the source's parent walk from the node ever reaches the root. */
  lemma CodeTerminates(ns: seq<Node>, i: nat)
    requires WellLinked(ns) && i < |ns|
    ensures Code(ns, i).Some? <==> exists k :: Climb(ns, i, k) == Root
  {
    if Code(ns, i).Some? {
      CodeOfSteps(ns, i, |ns|);
    }
    if k :| Climb(ns, i, k) == Root {
      var k' := ReachWithin(ns, i, k);
      ReachedGivesCode(ns, i, k', |ns|);
    }
  }

  /** Two stores with the same parents below |ns| have the same walks from nodes below |ns|. */
  lemma {:induction false} ClimbFrame(ns: seq<Node>, ns': seq<Node>, i: nat, k: nat)
    requires WellLinked(ns) && WellLinked(ns') && |ns| <= |ns'| && i < |ns|
    requires forall j :: 0 <= j < |ns| ==> ns'[j].parent == ns[j].parent
    ensures Climb(ns', i, k) == Climb(ns, i, k)
    decreases k
  {
    if k > 0 && i != Root {
      ClimbFrame(ns, ns', ns[i].parent.value, k - 1);
    }
  }

  /** A found code survives changes that keep the parents and the `left` of every node the walk passes through. */
  lemma {:induction false} CodeFrame(ns: seq<Node>, ns': seq<Node>, i: nat, fuel: nat)
    requires WellLinked(ns) && WellLinked(ns') && |ns| <= |ns'| && i < |ns|
    requires forall j :: 0 <= j < |ns| ==> ns'[j].parent == ns[j].parent
    requires CodeOf(ns, i, fuel).Some?
    requires forall j :: 1 <= j <= |CodeOf(ns, i, fuel).value| ==>
               ns'[Climb(ns, i, j)].left == ns[Climb(ns, i, j)].left
    ensures CodeOf(ns', i, fuel) == CodeOf(ns, i, fuel)
    decreases fuel
  {
    if i != Root {
      var up := ns[i].parent.value;
      var c := CodeOf(ns, i, fuel).value;
      assert Climb(ns, i, 1) == up;
      forall j | 1 <= j <= |CodeOf(ns, up, fuel - 1).value|
        ensures ns'[Climb(ns, up, j)].left == ns[Climb(ns, up, j)].left
      {
        assert Climb(ns, i, j + 1) == Climb(ns, up, j);
      }
      CodeFrame(ns, ns', up, fuel - 1);
    }
  }

  /**
   * Right after a split, the code of the new NYT node is the code of the old
   * NYT node followed by '0', and neither exists when the other does not.
   */
  lemma SplitNytCode(ns: seq<Node>, nyt: nat, s: char)
    requires WellLinked(ns) && nyt < |ns|
    ensures WellLinked(Split(ns, nyt, s))
    ensures Code(Split(ns, nyt, s), |ns|) ==
              match Code(ns, nyt)
              case None => None
              case Some(c) => Some(c + "0")
  {
    var r := Split(ns, nyt, s);
    assert forall j :: 0 <= j < |ns| ==> r[j].parent == ns[j].parent;
    assert WellLinked(r) by {
      forall k | 0 <= k < |r|
        ensures InRange(r[k].parent, |r|) && InRange(r[k].left, |r|) && InRange(r[k].right, |r|)
        ensures k != Root ==> r[k].parent.Some?
      {
      }
    }
    assert Code(r, |ns|) ==
             match CodeOf(r, nyt, |ns| + 1)
             case None => None
             case Some(c) => Some(c + "0");
    match Code(ns, nyt)
    case Some(c) =>
      CodeOfSteps(ns, nyt, |ns|);
      forall j | 1 <= j <= |c|
        ensures r[Climb(ns, nyt, j)].left == ns[Climb(ns, nyt, j)].left
      {
        if Climb(ns, nyt, j) == nyt {
          ClimbAdd(ns, nyt, j, |c| - j);
        }
      }
      CodeFrame(ns, r, nyt, |ns|);
      CodeOfMoreFuel(r, nyt, |ns|, |ns| + 1);
    case None =>
      CodeTerminates(ns, nyt);
      if CodeOf(r, nyt, |ns| + 1).Some? {
        CodeOfSteps(r, nyt, |ns| + 1);
        var n := |CodeOf(r, nyt, |ns| + 1).value|;
        ClimbFrame(ns, r, nyt, n);
        assert false;
      }
  }

  // ---------------------------------------------------------------------------
  // fixWeights
  // ---------------------------------------------------------------------------

  predicate HasBothChildren(n: Node) {
    n.left.Some? && n.right.Some?
  }

  /**
   * `node.fixWeights()`: when the node has both children, refresh the left
   * subtree, then the right one, then set the node's weight to the sum of its
   * children's weights. The recursion is cut after `fuel` levels.
   */
  function FixW(ns: seq<Node>, i: nat, fuel: nat): (r: seq<Node>)
    requires WellLinked(ns) && i < |ns|
    ensures |r| == |ns| && WellLinked(r)
    ensures forall k :: 0 <= k < |ns| ==> r[k] == ns[k].(weight := r[k].weight)
    decreases fuel
  {
    if fuel == 0 || !HasBothChildren(ns[i]) then ns
    else
      var l, rt := ns[i].left.value, ns[i].right.value;
      var afterLeft := FixW(ns, l, fuel - 1);
      var afterRight := FixW(afterLeft, rt, fuel - 1);
      afterRight[i := afterRight[i].(weight := afterRight[l].weight + afterRight[rt].weight)]
  }

  /** The refresh of a node with both children and `rest + 1` levels left: both subtrees, then the node's own weight. */
  lemma FixWUnfoldAt(ns: seq<Node>, i: nat, rest: nat)
    requires WellLinked(ns) && i < |ns| && HasBothChildren(ns[i])
    ensures var l, rt := ns[i].left.value, ns[i].right.value;
      var afterRight := FixW(FixW(ns, l, rest), rt, rest);
      FixW(ns, i, rest + 1) == afterRight[i := afterRight[i].(weight := afterRight[l].weight + afterRight[rt].weight)]
  {
  }

  /**
   * What the refresh achieves: a node with both children (neither of them
   * itself) ends with the sum of its children's final weights, and a node
   * without both children keeps its weight.
   */
  lemma {:induction false} FixWWeights(ns: seq<Node>, i: nat, fuel: nat)
    requires WellLinked(ns) && i < |ns|
    ensures var r := FixW(ns, i, fuel);
      forall k :: 0 <= k < |ns| && !HasBothChildren(ns[k]) ==> r[k].weight == ns[k].weight
    ensures var r := FixW(ns, i, fuel);
      fuel > 0 && HasBothChildren(ns[i]) && ns[i].left.value != i && ns[i].right.value != i ==>
        r[i].weight == r[ns[i].left.value].weight + r[ns[i].right.value].weight
    decreases fuel
  {
    if fuel > 0 && HasBothChildren(ns[i]) {
      var l, rt := ns[i].left.value, ns[i].right.value;
      FixWWeights(ns, l, fuel - 1);
      FixWWeights(FixW(ns, l, fuel - 1), rt, fuel - 1);
    }
  }

  /** The refresh only rewrites weights, so it keeps the shape and every held symbol. */
  lemma FixWShaped(ns: seq<Node>, alphabetSize: nat, i: nat, fuel: nat)
    requires Shaped(ns, alphabetSize) && i < |ns|
    ensures Shaped(FixW(ns, i, fuel), alphabetSize)
    ensures SymbolSlots(FixW(ns, i, fuel)) == SymbolSlots(ns)
  {
    var r := FixW(ns, i, fuel);
    assert forall k :: 0 <= k < |r| ==> r[k].id == ns[k].id && r[k].symbol == ns[k].symbol;
    SameLinksTree(ns, r);
  }

  // ---------------------------------------------------------------------------
  // fixWeights from the root
  // ---------------------------------------------------------------------------

  /** The nodes `FixW(ns, i, fuel)` visits: i, and while fuel lasts the subtrees below its two children. */
  ghost function Visited(ns: seq<Node>, i: nat, fuel: nat): (r: set<nat>)
    requires WellLinked(ns) && i < |ns|
    ensures i in r && forall k :: k in r ==> k < |ns|
    decreases fuel
  {
    if fuel == 0 || !HasBothChildren(ns[i]) then {i}
    else {i} + Visited(ns, ns[i].left.value, fuel - 1) + Visited(ns, ns[i].right.value, fuel - 1)
  }

  /** The refresh from i meets a node with both children when its fuel is spent. */
  ghost predicate Starved(ns: seq<Node>, i: nat, fuel: nat)
    requires WellLinked(ns) && i < |ns|
    decreases fuel
  {
    && HasBothChildren(ns[i])
    && (fuel == 0 || Starved(ns, ns[i].left.value, fuel - 1) || Starved(ns, ns[i].right.value, fuel - 1))
  }

  /** p follows child links from p[0] down to its last node. */
  ghost predicate LinkPath(ns: seq<Node>, p: seq<nat>) {
    && |p| > 0
    && (forall j :: 0 <= j < |p| ==> p[j] < |ns|)
    && (forall j, k {:trigger p[j], p[k]} :: 0 <= j && k == j + 1 && k < |p| ==> Child(ns[p[j]], p[k]))
  }

  /** A path of child links from the root. */
  ghost predicate RootPath(ns: seq<Node>, p: seq<nat>) {
    LinkPath(ns, p) && p[0] == Root
  }

  /** Every node with both children that hangs below the root weighs the sum of its children. */
  ghost predicate WeightsSummed(ns: seq<Node>)
    requires WellLinked(ns)
  {
    forall p :: RootPath(ns, p) ==> SummedAt(ns, p[|p| - 1])
  }

  /** Node k, when it has both children, weighs the sum of their weights. */
  ghost predicate SummedAt(ns: seq<Node>, k: nat)
    requires WellLinked(ns) && k < |ns|
  {
    HasBothChildren(ns[k]) ==> ns[k].weight == ns[ns[k].left.value].weight + ns[ns[k].right.value].weight
  }

  /** Visits, starvation and separation depend on the links only, not on the weights. */
  lemma VisitedSameLinks(ns: seq<Node>, ns': seq<Node>, i: nat, fuel: nat)
    requires WellLinked(ns) && WellLinked(ns') && SameLinks(ns, ns') && i < |ns|
    ensures Visited(ns', i, fuel) == Visited(ns, i, fuel)
    ensures Starved(ns', i, fuel) == Starved(ns, i, fuel)
    ensures Separated(ns', i, fuel) == Separated(ns, i, fuel)
  {
    VisitedLinksOnly(ns, ns', i, fuel);
    StarvedLinksOnly(ns, ns', i, fuel);
    SeparatedLinksOnly(ns, ns', i, fuel);
  }

  lemma {:induction false} VisitedLinksOnly(ns: seq<Node>, ns': seq<Node>, i: nat, fuel: nat)
    requires WellLinked(ns) && WellLinked(ns') && SameLinks(ns, ns') && i < |ns|
    ensures Visited(ns', i, fuel) == Visited(ns, i, fuel)
    decreases fuel
  {
    assert ns'[i].left == ns[i].left && ns'[i].right == ns[i].right;
    if fuel > 0 && HasBothChildren(ns[i]) {
      VisitedLinksOnly(ns, ns', ns[i].left.value, fuel - 1);
      VisitedLinksOnly(ns, ns', ns[i].right.value, fuel - 1);
    }
  }

  lemma {:induction false} StarvedLinksOnly(ns: seq<Node>, ns': seq<Node>, i: nat, fuel: nat)
    requires WellLinked(ns) && WellLinked(ns') && SameLinks(ns, ns') && i < |ns|
    ensures Starved(ns', i, fuel) == Starved(ns, i, fuel)
    decreases fuel
  {
    if fuel > 0 && HasBothChildren(ns[i]) {
      StarvedLinksOnly(ns, ns', ns[i].left.value, fuel - 1);
      StarvedLinksOnly(ns, ns', ns[i].right.value, fuel - 1);
    }
  }

  lemma {:induction false} SeparatedLinksOnly(ns: seq<Node>, ns': seq<Node>, i: nat, fuel: nat)
    requires WellLinked(ns) && WellLinked(ns') && SameLinks(ns, ns') && i < |ns|
    ensures Separated(ns', i, fuel) == Separated(ns, i, fuel)
    decreases fuel
  {
    assert ns'[i].left == ns[i].left && ns'[i].right == ns[i].right;
    if fuel > 0 && HasBothChildren(ns[i]) {
      var l, rt := ns[i].left.value, ns[i].right.value;
      VisitedLinksOnly(ns, ns', l, fuel - 1);
      VisitedLinksOnly(ns, ns', rt, fuel - 1);
      SeparatedLinksOnly(ns, ns', l, fuel - 1);
      SeparatedLinksOnly(ns, ns', rt, fuel - 1);
    }
  }

  lemma PathSameLinks(ns: seq<Node>, ns': seq<Node>, p: seq<nat>)
    requires SameLinks(ns, ns') && LinkPath(ns, p)
    ensures LinkPath(ns', p)
  {
    forall j, k | 0 <= j && k == j + 1 && k < |p|
      ensures Child(ns'[p[j]], p[k])
    {
      assert Child(ns[p[j]], p[k]);
    }
  }

  /** Appending a child of a path's last node gives a path. */
  lemma PathExtend(ns: seq<Node>, p: seq<nat>, c: nat)
    requires LinkPath(ns, p) && c < |ns| && Child(ns[p[|p| - 1]], c)
    ensures LinkPath(ns, p + [c])
  {
    var q := p + [c];
    forall j, k | 0 <= j && k == j + 1 && k < |q|
      ensures Child(ns[q[j]], q[k])
    {
      if k < |p| {
        assert q[j] == p[j] && q[k] == p[k];
      }
    }
  }

  /** Joining a path to one that starts at a child of its last node gives a path. */
  lemma PathJoin(ns: seq<Node>, p: seq<nat>, q: seq<nat>)
    requires LinkPath(ns, p) && LinkPath(ns, q) && Child(ns[p[|p| - 1]], q[0])
    ensures LinkPath(ns, p + q)
  {
    var w := p + q;
    forall j, k | 0 <= j && k == j + 1 && k < |w|
      ensures Child(ns[w[j]], w[k])
    {
      if k < |p| {
        assert w[j] == p[j] && w[k] == p[k];
      } else if j >= |p| {
        assert w[j] == q[j - |p|] && w[k] == q[k - |p|];
      }
    }
  }

  /** Every visited node is reached from i by child links. */
  lemma {:induction false} VisitedPath(ns: seq<Node>, i: nat, fuel: nat, k: nat) returns (q: seq<nat>)
    requires WellLinked(ns) && i < |ns| && k in Visited(ns, i, fuel)
    ensures LinkPath(ns, q) && q[0] == i && q[|q| - 1] == k
    decreases fuel
  {
    if k == i {
      q := [i];
    } else {
      var l, rt := ns[i].left.value, ns[i].right.value;
      var c := if k in Visited(ns, l, fuel - 1) then l else rt;
      var q' := VisitedPath(ns, c, fuel - 1, k);
      PathJoin(ns, [i], q');
      q := [i] + q';
    }
  }

  /** The root is nobody's child, so a path of two or more nodes does not end at it. */
  lemma RootNotBelow(ns: seq<Node>, p: seq<nat>)
    requires TreeLinks(ns) && LinkPath(ns, p) && |p| > 1
    ensures p[|p| - 1] != Root
  {
    assert Child(ns[p[|p| - 2]], p[|p| - 1]);
  }

  lemma JoinedAt(p: seq<nat>, q: seq<nat>)
    requires |q| > 0
    ensures (p + q)[|p|] == q[0]
  {
  }

  /** With a unique parent for every node and no parent for the root, a node is reached from the root by one path at most. */
  lemma {:induction false} PathsUnique(ns: seq<Node>, p: seq<nat>, q: seq<nat>)
    requires TreeLinks(ns) && RootPath(ns, p) && RootPath(ns, q) && p[|p| - 1] == q[|q| - 1]
    ensures p == q
    decreases |p|
  {
    if |p| == 1 && |q| == 1 {
    } else if |p| == 1 {
      RootNotBelow(ns, q);
      assert false;
    } else if |q| == 1 {
      RootNotBelow(ns, p);
      assert false;
    } else {
      assert Child(ns[p[|p| - 2]], p[|p| - 1]) && Child(ns[q[|q| - 2]], q[|q| - 1]);
      PathsUnique(ns, p[..|p| - 1], q[..|q| - 1]);
      assert p == p[..|p| - 1] + [p[|p| - 1]];
      assert q == q[..|q| - 1] + [q[|q| - 1]];
    }
  }

  /** A path from the root never comes back to a node, so it has at most one node per store entry. */
  lemma RootPathShort(ns: seq<Node>, p: seq<nat>)
    requires TreeLinks(ns) && RootPath(ns, p)
    ensures |p| <= |ns|
  {
    forall a, b | 0 <= a < b < |p|
      ensures p[a] != p[b]
    {
      if p[a] == p[b] {
        PathsUnique(ns, p[..a + 1], p[..b + 1]);
        assert false;
      }
    }
    DistinctBelow(p, |ns|);
  }

  /** The store's links and a path from the root to i, with fuel that is the store's size less the path's depth. */
  ghost predicate RootedAt(ns: seq<Node>, p: seq<nat>, i: nat, fuel: nat) {
    && WellLinked(ns) && TreeLinks(ns) && RootPath(ns, p)
    && p[|p| - 1] == i && fuel + |p| == |ns| + 1
  }

  /**
   * Below every node with both children that the refresh from i visits, the
   * levels have not run out, and the node and its two subtrees are pairwise
   * apart.
   */
  ghost predicate Separated(ns: seq<Node>, i: nat, fuel: nat)
    requires WellLinked(ns) && i < |ns|
    decreases fuel
  {
    HasBothChildren(ns[i]) ==>
      && fuel > 0
      && i !in Visited(ns, ns[i].left.value, fuel - 1)
      && i !in Visited(ns, ns[i].right.value, fuel - 1)
      && Visited(ns, ns[i].left.value, fuel - 1) !! Visited(ns, ns[i].right.value, fuel - 1)
      && Separated(ns, ns[i].left.value, fuel - 1)
      && Separated(ns, ns[i].right.value, fuel - 1)
  }

  /** A separated refresh visits both children of every node it visits that has them. */
  lemma {:induction false} VisitedClosed(ns: seq<Node>, i: nat, fuel: nat)
    requires WellLinked(ns) && i < |ns| && Separated(ns, i, fuel)
    ensures forall k :: k in Visited(ns, i, fuel) && HasBothChildren(ns[k]) ==>
      ns[k].left.value in Visited(ns, i, fuel) && ns[k].right.value in Visited(ns, i, fuel)
    decreases fuel
  {
    if HasBothChildren(ns[i]) {
      VisitedClosed(ns, ns[i].left.value, fuel - 1);
      VisitedClosed(ns, ns[i].right.value, fuel - 1);
    }
  }

  /** A separated refresh is never starved. */
  lemma {:induction false} SeparatedNotStarved(ns: seq<Node>, i: nat, fuel: nat)
    requires WellLinked(ns) && i < |ns| && Separated(ns, i, fuel)
    ensures !Starved(ns, i, fuel)
    decreases fuel
  {
    if HasBothChildren(ns[i]) {
      SeparatedNotStarved(ns, ns[i].left.value, fuel - 1);
      SeparatedNotStarved(ns, ns[i].right.value, fuel - 1);
    }
  }

  /** The refresh from i touches no node it does not visit. */
  lemma FixWFrame(ns: seq<Node>, i: nat, fuel: nat)
    requires WellLinked(ns) && i < |ns|
    ensures forall k :: 0 <= k < |ns| && k !in Visited(ns, i, fuel) ==> FixW(ns, i, fuel)[k] == ns[k]
  {
    forall k | 0 <= k < |ns| && k !in Visited(ns, i, fuel)
      ensures FixW(ns, i, fuel)[k] == ns[k]
    {
      FixWFrameAt(ns, i, fuel, k);
    }
  }

  lemma {:induction false} FixWFrameAt(ns: seq<Node>, i: nat, fuel: nat, k: nat)
    requires WellLinked(ns) && i < |ns| && k < |ns| && k !in Visited(ns, i, fuel)
    ensures FixW(ns, i, fuel)[k] == ns[k]
    decreases fuel, 1
  {
    if fuel > 0 && HasBothChildren(ns[i]) {
      var l, rt := ns[i].left.value, ns[i].right.value;
      assert k != i && k !in Visited(ns, l, fuel - 1) && k !in Visited(ns, rt, fuel - 1);
      FixWFrameRight(ns, i, fuel, k);
      FixWFrameAt(ns, l, fuel - 1, k);
      FixWStepOther(ns, i, fuel, k);
      assert FixW(ns, i, fuel)[k] == FixW(FixW(ns, l, fuel - 1), rt, fuel - 1)[k];
    } else {
      assert FixW(ns, i, fuel) == ns;
    }
  }

  /** The right subtree's refresh leaves alone a node outside the right subtree. */
  lemma FixWFrameRight(ns: seq<Node>, i: nat, fuel: nat, k: nat)
    requires WellLinked(ns) && i < |ns| && k < |ns| && fuel > 0 && HasBothChildren(ns[i])
    requires k !in Visited(ns, ns[i].right.value, fuel - 1)
    ensures FixW(FixW(ns, ns[i].left.value, fuel - 1), ns[i].right.value, fuel - 1)[k] == FixW(ns, ns[i].left.value, fuel - 1)[k]
    decreases fuel, 0
  {
    var afterLeft := FixW(ns, ns[i].left.value, fuel - 1);
    VisitedLinksOnly(ns, afterLeft, ns[i].right.value, fuel - 1);
    FixWFrameAt(afterLeft, ns[i].right.value, fuel - 1, k);
  }

  /** Below the node it starts from, the refresh is the right subtree's refresh after the left's. */
  lemma FixWStepOther(ns: seq<Node>, i: nat, fuel: nat, k: nat)
    requires WellLinked(ns) && i < |ns| && HasBothChildren(ns[i]) && k < |ns| && k != i && fuel > 0
    ensures FixW(ns, i, fuel)[k] == FixW(FixW(ns, ns[i].left.value, fuel - 1), ns[i].right.value, fuel - 1)[k]
  {
  }

  /** Below a node reached from the root, the subtrees of its two children share no node and do not contain it. */
  lemma Separate(ns: seq<Node>, p: seq<nat>, i: nat, fuel: nat)
    requires RootedAt(ns, p, i, fuel) && HasBothChildren(ns[i]) && fuel > 0
    ensures var l, rt := ns[i].left.value, ns[i].right.value;
      && i !in Visited(ns, l, fuel - 1)
      && i !in Visited(ns, rt, fuel - 1)
      && Visited(ns, l, fuel - 1) !! Visited(ns, rt, fuel - 1)
  {
    var l, rt := ns[i].left.value, ns[i].right.value;
    if i in Visited(ns, l, fuel - 1) {
      var q := VisitedPath(ns, l, fuel - 1, i);
      PathJoin(ns, p, q);
      PathsUnique(ns, p, p + q);
      assert false;
    }
    if i in Visited(ns, rt, fuel - 1) {
      var q := VisitedPath(ns, rt, fuel - 1, i);
      PathJoin(ns, p, q);
      PathsUnique(ns, p, p + q);
      assert false;
    }
    var shared := Visited(ns, l, fuel - 1) * Visited(ns, rt, fuel - 1);
    if shared != {} {
      var x :| x in shared;
      var ql := VisitedPath(ns, l, fuel - 1, x);
      var qr := VisitedPath(ns, rt, fuel - 1, x);
      PathJoin(ns, p, ql);
      PathJoin(ns, p, qr);
      JoinedAt(p, ql);
      JoinedAt(p, qr);
      PathsUnique(ns, p + ql, p + qr);
      assert false;
    }
  }

  /** Below a node reached from the root, the refresh is separated. */
  lemma {:induction false} RootedSeparated(ns: seq<Node>, p: seq<nat>, i: nat, fuel: nat)
    requires RootedAt(ns, p, i, fuel)
    ensures Separated(ns, i, fuel)
    decreases fuel
  {
    if HasBothChildren(ns[i]) {
      ChildrenRooted(ns, p, i, fuel);
      var l, rt := ns[i].left.value, ns[i].right.value;
      RootedSeparated(ns, p + [l], l, fuel - 1);
      RootedSeparated(ns, p + [rt], rt, fuel - 1);
    }
  }

  /** After a separated refresh from i, every visited node with both children weighs their sum. */
  lemma {:induction false} FixWSums(ns: seq<Node>, i: nat, fuel: nat)
    requires WellLinked(ns) && i < |ns| && Separated(ns, i, fuel)
    ensures SumsHold(ns, FixW(ns, i, fuel), Visited(ns, i, fuel))
    decreases fuel, 1
  {
    if HasBothChildren(ns[i]) {
      var l, rt := ns[i].left.value, ns[i].right.value;
      LeftSums(ns, i, fuel);
      RightSums(ns, i, fuel);
      SumsUnion(ns, FixW(ns, i, fuel), Visited(ns, l, fuel - 1), Visited(ns, rt, fuel - 1) + {i});
      assert Visited(ns, i, fuel) == Visited(ns, l, fuel - 1) + (Visited(ns, rt, fuel - 1) + {i});
    }
  }

  /** The separated refresh from i sums every node with both children in its left subtree. */
  lemma {:induction false} LeftSums(ns: seq<Node>, i: nat, fuel: nat)
    requires WellLinked(ns) && i < |ns| && Separated(ns, i, fuel) && HasBothChildren(ns[i])
    ensures fuel > 0 && SumsHold(ns, FixW(ns, i, fuel), Visited(ns, ns[i].left.value, fuel - 1))
    decreases fuel, 0
  {
    var l, rt := ns[i].left.value, ns[i].right.value;
    FixWSums(ns, l, fuel - 1);
    LeftSumsSurvive(ns, i, fuel);
  }

  /** The separated refresh from i sums i itself and every node with both children in its right subtree. */
  lemma {:induction false} RightSums(ns: seq<Node>, i: nat, fuel: nat)
    requires WellLinked(ns) && i < |ns| && Separated(ns, i, fuel) && HasBothChildren(ns[i])
    ensures fuel > 0 && SumsHold(ns, FixW(ns, i, fuel), Visited(ns, ns[i].right.value, fuel - 1) + {i})
    decreases fuel, 0
  {
    var l, rt := ns[i].left.value, ns[i].right.value;
    var afterLeft := FixW(ns, l, fuel - 1);
    RightSeparated(ns, i, fuel);
    FixWSums(afterLeft, rt, fuel - 1);
    RightSumsMoved(ns, i, fuel);
    RightSumsSurvive(ns, i, fuel);
  }

  /** The sums the right refresh leaves, read against the links of the store before the left refresh, which are the same. */
  lemma RightSumsMoved(ns: seq<Node>, i: nat, fuel: nat)
    requires WellLinked(ns) && i < |ns| && Separated(ns, i, fuel) && HasBothChildren(ns[i])
    requires SumsHold(FixW(ns, ns[i].left.value, fuel - 1),
                      FixW(FixW(ns, ns[i].left.value, fuel - 1), ns[i].right.value, fuel - 1),
                      Visited(FixW(ns, ns[i].left.value, fuel - 1), ns[i].right.value, fuel - 1))
    ensures SumsHold(ns, FixW(FixW(ns, ns[i].left.value, fuel - 1), ns[i].right.value, fuel - 1),
                     Visited(ns, ns[i].right.value, fuel - 1))
  {
    var afterLeft := FixW(ns, ns[i].left.value, fuel - 1);
    FixWSameLinks(ns, ns[i].left.value, fuel - 1);
    VisitedSameLinks(ns, afterLeft, ns[i].right.value, fuel - 1);
  }

  /** The refresh changes weights only. */
  lemma FixWSameLinks(ns: seq<Node>, i: nat, fuel: nat)
    requires WellLinked(ns) && i < |ns|
    ensures SameLinks(ns, FixW(ns, i, fuel))
  {
  }

  /** The left refresh keeps every link, so the right refresh that follows it is still separated. */
  lemma RightSeparated(ns: seq<Node>, i: nat, fuel: nat)
    requires WellLinked(ns) && i < |ns| && Separated(ns, i, fuel) && HasBothChildren(ns[i])
    ensures fuel > 0 && Separated(FixW(ns, ns[i].left.value, fuel - 1), ns[i].right.value, fuel - 1)
  {
    FixWSameLinks(ns, ns[i].left.value, fuel - 1);
    VisitedSameLinks(ns, FixW(ns, ns[i].left.value, fuel - 1), ns[i].right.value, fuel - 1);
  }

  lemma SumsUnion(ns: seq<Node>, r: seq<Node>, a: set<nat>, b: set<nat>)
    requires WellLinked(ns) && |r| == |ns| && (forall k :: k in a ==> k < |ns|) && (forall k :: k in b ==> k < |ns|)
    requires SumsHold(ns, r, a) && SumsHold(ns, r, b)
    ensures SumsHold(ns, r, a + b)
  {
  }

  /** Both children of a node reached from the root are reached from it one level deeper, and their subtrees separate. */
  lemma ChildrenRooted(ns: seq<Node>, p: seq<nat>, i: nat, fuel: nat)
    requires RootedAt(ns, p, i, fuel) && HasBothChildren(ns[i])
    ensures fuel > 0
    ensures var l, rt := ns[i].left.value, ns[i].right.value;
      && RootedAt(ns, p + [l], l, fuel - 1)
      && RootedAt(ns, p + [rt], rt, fuel - 1)
      && i !in Visited(ns, l, fuel - 1)
      && i !in Visited(ns, rt, fuel - 1)
      && Visited(ns, l, fuel - 1) !! Visited(ns, rt, fuel - 1)
  {
    if fuel == 0 {
      RootPathShort(ns, p);
      assert false;
    }
    var l, rt := ns[i].left.value, ns[i].right.value;
    PathExtend(ns, p, l);
    PathExtend(ns, p, rt);
    Separate(ns, p, i, fuel);
  }

  /** Each node of `among` that has both children in `ns` weighs, in `r`, the sum of those children. */
  ghost predicate SumsHold(ns: seq<Node>, r: seq<Node>, among: set<nat>)
    requires WellLinked(ns) && |r| == |ns| && forall k :: k in among ==> k < |ns|
  {
    forall k :: k in among && HasBothChildren(ns[k]) ==>
      r[k].weight == r[ns[k].left.value].weight + r[ns[k].right.value].weight
  }

  /** The sums the left refresh leaves survive the right refresh and the node's own update. */
  lemma LeftSumsSurvive(ns: seq<Node>, i: nat, fuel: nat)
    requires WellLinked(ns) && i < |ns| && Separated(ns, i, fuel) && HasBothChildren(ns[i])
    requires SumsHold(ns, FixW(ns, ns[i].left.value, fuel - 1), Visited(ns, ns[i].left.value, fuel - 1))
    ensures SumsHold(ns, FixW(ns, i, fuel), Visited(ns, ns[i].left.value, fuel - 1))
  {
    var l, rt := ns[i].left.value, ns[i].right.value;
    var afterLeft := FixW(ns, l, fuel - 1);
    var r := FixW(ns, i, fuel);
    VisitedSameLinks(ns, afterLeft, rt, fuel - 1);
    VisitedClosed(ns, l, fuel - 1);
    FixWFrame(afterLeft, rt, fuel - 1);
    assert forall x :: 0 <= x < |ns| && x !in Visited(ns, rt, fuel - 1) && x != i ==> r[x] == afterLeft[x];
    forall k | k in Visited(ns, l, fuel - 1) && HasBothChildren(ns[k])
      ensures r[k].weight == r[ns[k].left.value].weight + r[ns[k].right.value].weight
    {
      var kl, kr := ns[k].left.value, ns[k].right.value;
      assert r[k].weight == afterLeft[k].weight && r[kl].weight == afterLeft[kl].weight && r[kr].weight == afterLeft[kr].weight;
    }
  }

  /** The sums the right refresh leaves survive the node's own update, and that update sums the node itself. */
  lemma RightSumsSurvive(ns: seq<Node>, i: nat, fuel: nat)
    requires WellLinked(ns) && i < |ns| && Separated(ns, i, fuel) && HasBothChildren(ns[i])
    requires SumsHold(ns, FixW(FixW(ns, ns[i].left.value, fuel - 1), ns[i].right.value, fuel - 1),
                      Visited(ns, ns[i].right.value, fuel - 1))
    ensures SumsHold(ns, FixW(ns, i, fuel), Visited(ns, ns[i].right.value, fuel - 1) + {i})
  {
    var l, rt := ns[i].left.value, ns[i].right.value;
    var afterLeft := FixW(ns, l, fuel - 1);
    var afterRight := FixW(afterLeft, rt, fuel - 1);
    var r := FixW(ns, i, fuel);
    VisitedClosed(ns, rt, fuel - 1);
    forall k | k in Visited(ns, rt, fuel - 1) && HasBothChildren(ns[k])
      ensures r[k].weight == r[ns[k].left.value].weight + r[ns[k].right.value].weight
    {
      var kl, kr := ns[k].left.value, ns[k].right.value;
      assert r[k].weight == afterRight[k].weight && r[kl].weight == afterRight[kl].weight && r[kr].weight == afterRight[kr].weight;
    }
  }

  /** Every end of a path from the root is visited by a separated refresh from the root. */
  lemma {:induction false} RootPathVisited(ns: seq<Node>, p: seq<nat>)
    requires WellLinked(ns) && TreeLinks(ns) && RootPath(ns, p) && Separated(ns, Root, |ns|)
    ensures p[|p| - 1] in Visited(ns, Root, |ns|)
    decreases |p|
  {
    if |p| > 1 {
      var p' := p[..|p| - 1];
      RootPathVisited(ns, p');
      VisitedClosed(ns, Root, |ns|);
      assert Child(ns[p'[|p'| - 1]], p[|p| - 1]);
    }
  }

  /**
   * `root.fixWeights()` (line 196) given as many levels as there are nodes:
   * the recursion never runs out of levels, and afterwards every node below
   * the root that has both children weighs the sum of its children.
   */
  lemma FixWFromRoot(ns: seq<Node>)
    requires WellLinked(ns) && TreeLinks(ns)
    ensures !Starved(ns, Root, |ns|)
    ensures WeightsSummed(FixW(ns, Root, |ns|))
  {
    RootedAtRoot(ns);
    RootedSeparated(ns, [Root], Root, |ns|);
    SeparatedNotStarved(ns, Root, |ns|);
    FixWSums(ns, Root, |ns|);
    SummedBelowRoot(ns);
  }

  /** The sums of the refresh from the root, read along every path from the root. */
  lemma SummedBelowRoot(ns: seq<Node>)
    requires WellLinked(ns) && TreeLinks(ns) && Separated(ns, Root, |ns|)
    requires SumsHold(ns, FixW(ns, Root, |ns|), Visited(ns, Root, |ns|))
    ensures WeightsSummed(FixW(ns, Root, |ns|))
  {
    forall p | RootPath(FixW(ns, Root, |ns|), p)
      ensures SummedAt(FixW(ns, Root, |ns|), p[|p| - 1])
    {
      SummedAtPathEnd(ns, p);
    }
  }

  /** The end of a path from the root, after the refresh from the root, weighs the sum of its children. */
  lemma SummedAtPathEnd(ns: seq<Node>, p: seq<nat>)
    requires WellLinked(ns) && TreeLinks(ns) && Separated(ns, Root, |ns|)
    requires SumsHold(ns, FixW(ns, Root, |ns|), Visited(ns, Root, |ns|))
    requires RootPath(FixW(ns, Root, |ns|), p)
    ensures SummedAt(FixW(ns, Root, |ns|), p[|p| - 1])
  {
    var r := FixW(ns, Root, |ns|);
    FixWSameLinks(ns, Root, |ns|);
    SameLinksFlip(ns, r);
    PathSameLinks(r, ns, p);
    RootPathVisited(ns, p);
  }

  lemma RootedAtRoot(ns: seq<Node>)
    requires WellLinked(ns) && TreeLinks(ns)
    ensures RootedAt(ns, [Root], Root, |ns|)
  {
  }

  lemma SameLinksFlip(ns: seq<Node>, ns': seq<Node>)
    requires SameLinks(ns, ns')
    ensures SameLinks(ns', ns)
  {
  }

  // ---------------------------------------------------------------------------
  // The ascent of encodeCharacter
  // ---------------------------------------------------------------------------

  /** The swap test of the ascent (line 188); under `Shaped` the fourth conjunct follows from the third. */
  predicate SwapWanted(ns: seq<Node>, n: nat, highest: Option<nat>): (r: bool)
    requires n < |ns| && WellLinked(ns) && (highest.Some? ==> highest.value < |ns|)
    ensures r ==> highest.Some? && n != Root && highest.value != Root && highest.value != n
  {
    && highest.Some?
    && ns[highest.value].parent.Some?
    && ns[n].id < ns[highest.value].id
    && ns[n].parent.Some?
    && ns[ns[n].parent.value].id != ns[highest.value].id
  }

  /** The swap test before a repeated symbol is coded (line 162). */
  predicate PreSwapWanted(ns: seq<Node>, n: nat, highest: Option<nat>): (r: bool)
    requires n < |ns| && WellLinked(ns) && (highest.Some? ==> highest.value < |ns|)
    ensures r ==> highest.Some? && n != Root && highest.value != Root && highest.value != n
  {
    && highest.Some?
    && ns[highest.value].parent.Some?
    && ns[n].id != ns[highest.value].id
    && ns[n].parent.Some?
    && ns[ns[n].parent.value].id != ns[highest.value].id
  }

  /** Where one iteration of the ascent leaves the store and the current node. */
  datatype Stepped = Stepped(nodes: seq<Node>, at: nat)

  /**
   * One iteration of the loop at lines 184-193 from a node below the root:
   * step to the parent, swap it with the highest-id node of its weight when
   * the test allows and continue from that node, and add one to the weight
   * of the node reached. On a swap the parent's fields (children, parent,
   * symbol) end up at the highest-id node and the other way round; either
   * way the node reached is the only one whose weight changes.
   */
  function StepUp(ns: seq<Node>, alphabetSize: nat, node: nat): (r: Stepped)
    requires Shaped(ns, alphabetSize) && node < |ns| && node != Root
    ensures |r.nodes| == |ns| && Shaped(r.nodes, alphabetSize) && r.at < |ns|
    ensures multiset(SymbolSlots(r.nodes)) == multiset(SymbolSlots(ns))
    ensures forall k :: 0 <= k < |ns| ==> ns[k].weight <= r.nodes[k].weight
    ensures r.nodes[r.at].weight == ns[r.at].weight + 1
    ensures forall k :: 0 <= k < |ns| && k != r.at ==> r.nodes[k].weight == ns[k].weight
    ensures var up := ns[node].parent.value;
      if SwapWanted(ns, up, HighestInBlock(ns, ns[up].weight)) then
        && ns[r.at].weight == ns[up].weight
        && (forall j :: 0 <= j < |ns| && ns[j].weight == ns[up].weight ==> ns[j].id <= ns[r.at].id)
        && r.nodes[r.at] == ns[up].(id := ns[r.at].id, weight := ns[up].weight + 1)
        && r.nodes[up] == ns[r.at].(id := ns[up].id)
      else
        r.at == up
  {
    var up := ns[node].parent.value;
    var highest := HighestInBlock(ns, ns[up].weight);
    HighestInBlockShaped(ns, alphabetSize, ns[up].weight);
    if SwapWanted(ns, up, highest) then
      var h := highest.value;
      RootIdLargest(alphabetSize, h);
      SwapBump(ns, alphabetSize, up, h);
      Stepped(Bump(Swapped(ns, up, h), h), h)
    else
      BumpShaped(ns, alphabetSize, up);
      BumpAddsOne(ns, up);
      Stepped(Bump(ns, up), up)
  }

  /** In a shaped store every id is at least 0, so the scan picks a node whose id no node of weight w beats. */
  lemma HighestInBlockShaped(ns: seq<Node>, alphabetSize: nat, w: nat)
    requires Shaped(ns, alphabetSize)
    ensures var h := HighestInBlock(ns, w);
      && (h.Some? ==>
            && ns[h.value].weight == w
            && forall j :: 0 <= j < |ns| && ns[j].weight == w ==> ns[j].id <= ns[h.value].id)
      && (h.None? <==> forall j :: 0 <= j < |ns| ==> ns[j].weight != w)
  {
    HighestAmongSpec(ns, w, |ns|);
    forall j | 0 <= j < |ns|
      ensures ns[j].id >= 0
    {
      RootIdLargest(alphabetSize, j);
    }
  }

  /** The swap of a parent with a node of its weight, then the bump of the node the parent's fields moved to. */
  lemma SwapBump(ns: seq<Node>, alphabetSize: nat, up: nat, h: nat)
    requires Shaped(ns, alphabetSize) && up < |ns| && h < |ns| && up != Root && h != Root && up != h
    requires ns[up].weight == ns[h].weight
    ensures var r := Bump(Swapped(ns, up, h), h);
      && |r| == |ns| && Shaped(r, alphabetSize)
      && multiset(SymbolSlots(r)) == multiset(SymbolSlots(ns))
      && r[h] == ns[up].(id := ns[h].id, weight := ns[up].weight + 1)
      && r[up] == ns[h].(id := ns[up].id)
      && forall k :: 0 <= k < |ns| && k != h ==> r[k].weight == ns[k].weight
  {
    SwapShaped(ns, alphabetSize, up, h);
    SwapKeepsSymbols(ns, up, h);
    SwapExchanges(ns, up, h);
    var swapped := Swapped(ns, up, h);
    BumpShaped(swapped, alphabetSize, h);
    BumpAddsOne(swapped, h);
  }

  /** Where the ascent stopped: the store, the node reached, and whether that node is the root. */
  datatype Climbed = Climbed(nodes: seq<Node>, at: nat, finished: bool)

  /** The loop at lines 184-193, cut after `fuel` iterations. */
  function Ascend(ns: seq<Node>, alphabetSize: nat, node: nat, fuel: nat): (r: Climbed)
    requires Shaped(ns, alphabetSize) && node < |ns|
    ensures |r.nodes| == |ns| && Shaped(r.nodes, alphabetSize) && r.at < |ns|
    ensures r.finished <==> r.at == Root
    ensures multiset(SymbolSlots(r.nodes)) == multiset(SymbolSlots(ns))
    ensures forall k :: 0 <= k < |ns| ==> ns[k].weight <= r.nodes[k].weight
    decreases fuel
  {
    if node == Root then Climbed(ns, node, true)
    else if fuel == 0 then Climbed(ns, node, false)
    else
      var next := StepUp(ns, alphabetSize, node);
      Ascend(next.nodes, alphabetSize, next.at, fuel - 1)
  }

  /** The ascent from a node below the root with `rest + 1` fuel is one step followed by the ascent with `rest`. */
  lemma AscendUnfold(ns: seq<Node>, alphabetSize: nat, node: nat, rest: nat)
    requires Shaped(ns, alphabetSize) && node < |ns| && node != Root
    ensures var next := StepUp(ns, alphabetSize, node);
      Ascend(ns, alphabetSize, node, rest + 1) == Ascend(next.nodes, alphabetSize, next.at, rest)
  {
  }
}
