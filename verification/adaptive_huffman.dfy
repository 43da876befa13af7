/**
 * The `AdaptiveHuffman` closure of js/huffman.js as a class whose fields are
 * the closure variables, updated in place the way the source updates them.
 * Every method is proved to move the state exactly as the functions of
 * HuffmanTree and EncoderModel say; `EncodeCharacter` also keeps `Valid()`.
 */
module AdaptiveHuffmanCoder {
  import opened Options
  import opened HuffmanTree
  import opened EncoderModel

  /** `s` read back to front, as `arr.reverse()` leaves it. */
  function Reverse(s: string): (r: string)
    ensures |r| == |s| && forall k :: 0 <= k < |s| ==> r[k] == s[|s| - 1 - k]
  {
    if s == [] then [] else Reverse(s[1..]) + [s[0]]
  }

  /** An optional code with `suffix` appended, when there is a code. */
  function Append(code: Option<string>, suffix: string): Option<string> {
    match code
    case None => None
    case Some(c) => Some(c + suffix)
  }

  class AdaptiveHuffman {
    /** All nodes in creation order; index 0 is the root, and a node's index stands for the node itself. */
    var nodes: seq<Node>
    /** Registered symbols, each with the bit length of its character code. */
    var symbols: map<char, nat>
    /** Index of the NYT node. */
    var nyt: nat
    var isTreeFull: bool
    /** Bits of input encoded so far, counted as the bit lengths of the symbols' character codes. */
    var compInput: nat
    /** Code bits emitted so far. */
    var compOutput: nat
    const alphabetSize: nat

    ghost function State(): Encoder
      reads this
    {
      Encoder(nodes, symbols, nyt, isTreeFull, compInput, compOutput)
    }

    ghost predicate Valid()
      reads this
    {
      Invariant(State(), alphabetSize)
    }

    /** Lines 125-130: a lone root of id `2 * alphabetSize`, which is also the NYT node. */
    constructor(alphabetSize: nat)
      ensures Valid() && this.alphabetSize == alphabetSize
      ensures State() == Init(alphabetSize)
    {
      this.alphabetSize := alphabetSize;
      nodes := [Node(2 * alphabetSize, 0, None, None, None, None)];
      symbols := map[];
      nyt := Root;
      isTreeFull := false;
      compInput := 0;
      compOutput := 0;
    }

    /** `increaseWeight` on node k (lines 92-95). */
    method IncreaseWeight(k: nat)
      requires k < |nodes|
      modifies this`nodes
      ensures nodes == Bump(old(nodes), k)
    {
      nodes := nodes[k := nodes[k].(weight := nodes[k].weight + 1)];
    }

    /**
     * `swapNodes` (lines 219-230): nodes a and b trade `left`, `right`,
     * `parent`, `symbol` and `weight`; their ids stay and no neighbour is
     * re-pointed.
     */
    method SwapNodes(a: nat, b: nat)
      requires a < |nodes| && b < |nodes|
      modifies this`nodes
      ensures nodes == Swapped(old(nodes), a, b)
    {
      var x, y := nodes[a], nodes[b];
      nodes := nodes[a := x.(left := y.left, right := y.right, parent := y.parent, symbol := y.symbol, weight := y.weight)];
      nodes := nodes[b := y.(left := x.left, right := x.right, parent := x.parent, symbol := x.symbol, weight := x.weight)];
    }

    /**
     * `addNode` (lines 238-256): with room in the alphabet, give the NYT node
     * a new NYT node (id minus 2) as left child and a node for `symbol` (id
     * minus 1) as right child, move the NYT to the new node and register the
     * symbol; otherwise set the full flag.
     */
    method AddNode(symbol: char)
      requires nyt < |nodes|
      modifies this
      ensures State() == AddNodeStep(old(State()), alphabetSize, symbol)
    {
      ghost var before := State();
      if !isTreeFull && |symbols| < alphabetSize {
        var parent := nyt;
        var id := nodes[parent].id;
        var symbolNode := Node(id - 1, 0, Some(symbol), Some(parent), None, None);
        var newNyt := Node(id - 2, 0, None, Some(parent), None, None);
        var size := |nodes|;
        nodes := nodes[parent := nodes[parent].(left := Some(size), right := Some(size + 1))];
        ghost var linked := nodes;
        nyt := size;
        nodes := nodes + [newNyt];
        nodes := nodes + [symbolNode];
        symbols := symbols[symbol := BitLength(symbol as int)];
        assert nodes == linked + [newNyt, symbolNode];
        assert nodes == Split(before.nodes, before.nyt, symbol);
        assert State() == AddNodeStep(before, alphabetSize, symbol);
      } else {
        isTreeFull := true;
      }
    }

    /**
     * `fixWeights` on node i (lines 100-106): when the node has both
     * children, refresh the left subtree, then the right one, then store the
     * sum of the children's weights. The recursion is cut after `fuel` levels.
     */
    method FixWeights(i: nat, fuel: nat)
      requires WellLinked(nodes) && i < |nodes|
      modifies this`nodes
      ensures nodes == FixW(old(nodes), i, fuel)
      decreases fuel
    {
      if fuel > 0 && HasBothChildren(nodes[i]) {
        ghost var before := nodes;
        var l, r := nodes[i].left.value, nodes[i].right.value;
        var rest: nat := fuel - 1;
        FixWeights(l, rest);
        FixWeights(r, rest);
        nodes := nodes[i := nodes[i].(weight := nodes[l].weight + nodes[r].weight)];
        assert fuel == rest + 1;
        FixWUnfoldAt(before, i, rest);
      }
    }

    /**
     * `findSymbolNode` (lines 205-211): the first node in creation order
     * holding `symbol`, and nothing when no node holds it.
     */
    method FindSymbolNode(symbol: char) returns (r: Option<nat>)
      ensures r == FindSymbol(nodes, symbol)
      ensures r.Some? ==> r.value < |nodes| && nodes[r.value].symbol == Some(symbol)
      ensures r.Some? ==> forall j :: 0 <= j < r.value ==> nodes[j].symbol != Some(symbol)
      ensures r.None? <==> forall j :: 0 <= j < |nodes| ==> nodes[j].symbol != Some(symbol)
    {
      FindSymbolSpec(nodes, symbol);
      var i := 0;
      while i < |nodes|
        invariant i <= |nodes|
        invariant FindFrom(nodes, symbol, i) == FindSymbol(nodes, symbol)
      {
        if nodes[i].symbol == Some(symbol) {
          return Some(i);
        }
        i := i + 1;
      }
      return None;
    }

    /**
     * `getHighestIdInBlock` (lines 264-279): among the nodes of weight `w`,
     * the one with the highest id; ids are compared with the best so far,
     * which starts at -1, so nothing is returned when no node of that weight
     * has an id of 0 or more.
     */
    method HighestIdInBlock(w: nat) returns (r: Option<nat>)
      ensures r == HighestInBlock(nodes, w)
      ensures r.Some? ==> r.value < |nodes| && nodes[r.value].weight == w && nodes[r.value].id >= 0
      ensures r.Some? ==> forall j :: 0 <= j < |nodes| && nodes[j].weight == w && nodes[j].id >= 0 ==>
                            nodes[j].id <= nodes[r.value].id
      ensures r.None? <==> forall j :: 0 <= j < |nodes| && nodes[j].weight == w ==> nodes[j].id < 0
    {
      HighestAmongSpec(nodes, w, |nodes|);
      var highest := -1;
      r := None;
      var i := 0;
      while i < |nodes|
        invariant i <= |nodes|
        invariant r == HighestAmong(nodes, w, i)
        invariant highest == if r.Some? then nodes[r.value].id else -1
      {
        var tmp := nodes[i];
        if tmp.weight == w && tmp.id > highest {
          highest := tmp.id;
          r := Some(i);
        }
        i := i + 1;
      }
    }

    /**
     * `getHuffmanCode` (lines 287-298): walk from node i up to the root,
     * pushing '0' when the step came from the parent's `left` and '1'
     * otherwise, and reverse. The walk is given as many steps as there are
     * nodes, and fails only when the source's walk would never end.
     */
    method HuffmanCode(i: nat) returns (code: Option<string>)
      requires WellLinked(nodes) && i < |nodes|
      ensures code == Code(nodes, i)
      ensures code.Some? <==> exists k :: Climb(nodes, i, k) == Root
      ensures code.Some? ==> forall j :: 0 <= j < |code.value| ==> code.value[j] in "01"
    {
      var arr: string := [];
      var node: nat := i;
      var steps: nat := 0;
      if CodeOf(nodes, i, |nodes|).Some? {
        assert CodeOf(nodes, i, |nodes|).value + [] == CodeOf(nodes, i, |nodes|).value;
      }
      while node != Root && steps < |nodes|
        invariant node < |nodes| && steps <= |nodes|
        invariant Code(nodes, i) == Append(CodeOf(nodes, node, |nodes| - steps), Reverse(arr))
        decreases |nodes| - steps
      {
        var prev := node;
        node := nodes[node].parent.value;
        var bit := if nodes[node].left == Some(prev) then '0' else '1';
        ghost var rest := CodeOf(nodes, node, |nodes| - steps - 1);
        assert Reverse(arr + [bit]) == [bit] + Reverse(arr);
        if rest.Some? {
          assert rest.value + [bit] + Reverse(arr) == rest.value + ([bit] + Reverse(arr));
        }
        arr := arr + [bit];
        steps := steps + 1;
      }
      if node == Root {
        assert [] + Reverse(arr) == Reverse(arr);
        code := Some(Reverse(arr));
        CodeOfSteps(nodes, i, |nodes|);
      } else {
        code := None;
      }
      CodeTerminates(nodes, i);
    }

    /**
     * One iteration of the loop at lines 184-193: step to the parent, swap it
     * with the highest-id node of its weight when the test at line 188
     * allows and continue from that node, and bump the node reached.
     */
    method StepToParent(from: nat) returns (node: nat)
      requires Shaped(nodes, alphabetSize) && from < |nodes| && from != Root
      modifies this`nodes
      ensures Stepped(nodes, node) == StepUp(old(nodes), alphabetSize, from)
    {
      ghost var prev := nodes;
      node := nodes[from].parent.value;
      var highest := HighestIdInBlock(nodes[node].weight);
      if highest.Some? && nodes[highest.value].parent.Some? && nodes[node].id < nodes[highest.value].id
         && nodes[node].parent.Some? && nodes[nodes[node].parent.value].id != nodes[highest.value].id
      {
        assert SwapWanted(prev, node, highest);
        var h := highest.value;
        SwapNodes(node, h);
        node := h;
      } else {
        assert !SwapWanted(prev, node, highest);
      }
      IncreaseWeight(node);
    }

    /**
     * The loop at lines 184-193 of `encodeCharacter`, cut after `fuel`
     * iterations. Returns the node where the loop stopped, the root when it
     * ran to completion.
     */
    method ClimbToRoot(start: nat, fuel: nat) returns (node: nat)
      requires Shaped(nodes, alphabetSize) && start < |nodes|
      modifies this`nodes
      ensures var climbed := Ascend(old(nodes), alphabetSize, start, fuel);
        nodes == climbed.nodes && node == climbed.at
    {
      ghost var target := Ascend(nodes, alphabetSize, start, fuel);
      node := start;
      var f: nat := fuel;
      while node != Root && f > 0
        invariant Shaped(nodes, alphabetSize) && node < |nodes|
        invariant Ascend(nodes, alphabetSize, node, f) == target
        decreases f
      {
        ghost var prev, from, before := nodes, node, f;
        node := StepToParent(node);
        f := f - 1;
        assert before == f + 1;
        AscendUnfold(prev, alphabetSize, from, f);
      }
    }

    /**
     * Lines 180-196 of `encodeCharacter`: bump the node holding the symbol,
     * climb to the root for at most `fuel` steps, and refresh the weights
     * from the root once the climb gets there.
     */
    method PropagateFrom(node: nat, fuel: nat) returns (finished: bool)
      requires Shaped(nodes, alphabetSize) && node < |nodes|
      modifies this`nodes
      ensures var tree := Propagate(old(nodes), alphabetSize, node, fuel);
        nodes == tree.nodes && finished == tree.finished
    {
      BumpShaped(nodes, alphabetSize, node);
      IncreaseWeight(node);
      var reached := ClimbToRoot(node, fuel);
      finished := reached == Root;
      if finished {
        FixWeights(Root, |nodes|);
      }
    }

    /**
     * Lines 169-178 of `encodeCharacter`: add the symbol's bit length to the
     * input count, find the node holding it, and for a symbol already in the
     * tree append that node's code to the message and count its bits as
     * output. Nothing is handed on when the node's parent walk never reaches
     * the root.
     */
    method CountAndCode(symbol: char, msg: string, isInTree: bool) returns (node: nat, emitted: Option<string>)
      requires Valid() && symbol in symbols
      modifies this`compInput, this`compOutput
      ensures var counted := CountSymbol(old(State()), alphabetSize, symbol, msg, isInTree);
        State() == counted.after && node == counted.node && emitted == counted.emitted
    {
      ghost var e := State();
      ghost var holder := Holder(e.(compInput := compInput + symbols[symbol]), alphabetSize, symbol);
      compInput := compInput + symbols[symbol];
      var found := FindSymbolNode(symbol);
      node := found.value;
      if isInTree {
        var code := HuffmanCode(node);
        if code.None? {
          return node, None;
        }
        compOutput := compOutput + |code.value|;
        emitted := Some(msg + code.value);
      } else {
        assert msg + [] == msg;
        emitted := Some(msg);
      }
    }

    /**
     * Lines 169-196 of `encodeCharacter` for an admitted symbol: count and
     * code it, then, once the message is handed on, bump its node, climb to
     * the root for at most `fuel` steps and refresh the weights from the root.
     */
    method Admit(symbol: char, msg: string, isInTree: bool, fuel: nat) returns (emitted: Option<string>, finished: bool)
      requires Valid() && symbol in symbols
      modifies this
      ensures var step := Admitted(old(State()), alphabetSize, symbol, msg, isInTree, fuel);
        State() == step.after && emitted == step.emitted && finished == step.finished
    {
      var node;
      node, emitted := CountAndCode(symbol, msg, isInTree);
      if emitted.None? {
        return None, false;
      }
      finished := PropagateFrom(node, fuel);
    }

    /**
     * Lines 167-196 of `encodeCharacter`: an admitted symbol goes through
     * `Admit`; an unseen symbol that met a full tree only has the weights
     * refreshed from the root.
     */
    method Update(symbol: char, msg: string, isInTree: bool, fuel: nat) returns (emitted: Option<string>, finished: bool)
      requires Valid()
      requires !isTreeFull || isInTree ==> symbol in symbols
      modifies this
      ensures var step := UpdateTree(old(State()), alphabetSize, symbol, msg, isInTree, fuel);
        State() == step.after && emitted == step.emitted && finished == step.finished
    {
      if !isTreeFull || isInTree {
        emitted, finished := Admit(symbol, msg, isInTree, fuel);
      } else {
        FixWeights(Root, |nodes|);
        emitted, finished := None, true;
      }
    }

    /**
     * Lines 146-157 of `encodeCharacter` for an unseen symbol: `addNode`,
     * then, once more than one symbol is registered, the NYT node's code
     * counted as output and put in front of the symbol.
     */
    method RegisterSymbol(symbol: char) returns (msg: Option<string>)
      requires Valid() && symbol !in symbols
      modifies this
      ensures var reg := Register(old(State()), alphabetSize, symbol);
        State() == reg.after && msg == reg.msg
    {
      AddNodeKeepsInvariant(State(), alphabetSize, symbol);
      AddNode(symbol);
      var prefix: string := [];
      if |symbols| > 1 {
        var code := HuffmanCode(nyt);
        if code.None? {
          return None;
        }
        compOutput := compOutput + |code.value|;
        prefix := code.value;
      } else {
        assert prefix + [symbol] == [symbol];
      }
      msg := Some(prefix + [symbol]);
    }

    /**
     * Lines 159-164 of `encodeCharacter` for a repeated symbol: swap its
     * node with the highest-id node of the same weight when the test at
     * line 162 allows.
     */
    method PreSwapSymbol(symbol: char)
      requires Valid() && symbol in symbols
      modifies this`nodes
      ensures State() == PreSwap(old(State()), alphabetSize, symbol)
    {
      ghost var holder := Holder(State(), alphabetSize, symbol);
      var found := FindSymbolNode(symbol);
      var node := found.value;
      var highest := HighestIdInBlock(nodes[node].weight);
      if highest.Some? && nodes[highest.value].parent.Some? && nodes[node].id != nodes[highest.value].id
         && nodes[node].parent.Some? && nodes[nodes[node].parent.value].id != nodes[highest.value].id
      {
        SwapNodes(node, highest.value);
      }
    }

    /**
     * `encodeCharacter` (lines 137-197). An unseen symbol is added to the
     * tree and prefixed with the NYT node's code once a second symbol is
     * registered; a repeated symbol's node is first swapped with the
     * highest-id node of its weight when the test allows; then `Update`
     * runs. `finished` is false when the call would not return: the parent
     * walk of a code never reaches the root, or the climb outlasts `fuel`.
     */
    method EncodeCharacter(symbol: char, fuel: nat) returns (emitted: Option<string>, finished: bool)
      requires Valid()
      modifies this
      ensures Valid()
      ensures var step := EncodeStep(old(State()), alphabetSize, symbol, fuel);
        State() == step.after && emitted == step.emitted && finished == step.finished
    {
      var isInTree := symbol in symbols;
      var msg: string := [];
      if !isInTree {
        var prefixed := RegisterSymbol(symbol);
        if prefixed.None? {
          return None, false;
        }
        msg := prefixed.value;
      } else {
        PreSwapSymbol(symbol);
      }
      emitted, finished := Update(symbol, msg, isInTree, fuel);
    }
  }
}
