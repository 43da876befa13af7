/**
 * The state of one `AdaptiveHuffman` instance (js/huffman.js) as a value, and
 * what one call of `encodeCharacter` does to it. The class in
 * adaptive_huffman.dfy updates the same state in place and is proved to follow
 * these functions.
 */
module EncoderModel {
  import opened Options
  import opened HuffmanTree

  /**
   * The closure variables: the node store, the symbol table (symbol to bit
   * length of its character code), the NYT node, the full flag and the two
   * bit counters behind the compression ratio.
   */
  datatype Encoder = Encoder(
    nodes: seq<Node>,
    symbols: map<char, nat>,
    nyt: nat,
    isTreeFull: bool,
    compInput: nat,
    compOutput: nat)

  /**
   * What holds from construction onward: the store has one root plus two
   * nodes per registered symbol, with ids fixed by creation order; the NYT
   * node is the one created by the last split; the table never outgrows the
   * alphabet and is full whenever the flag is set; each registered symbol is
   * held by exactly one node, and no other symbol is held.
   */
  ghost predicate Invariant(e: Encoder, alphabetSize: nat) {
    Consistent(e.nodes, e.symbols, e.nyt, e.isTreeFull, alphabetSize)
  }

  /** The invariant over the parts of the state it constrains; the two counters are free. */
  ghost predicate Consistent(nodes: seq<Node>, symbols: map<char, nat>, nyt: nat, isTreeFull: bool, alphabetSize: nat) {
    && Shaped(nodes, alphabetSize)
    && |symbols| <= alphabetSize
    && |nodes| == 1 + 2 * |symbols|
    && nyt == NytIndex(|symbols|)
    && (isTreeFull ==> |symbols| == alphabetSize)
    && (forall c {:trigger symbols[c]} :: c in symbols ==> symbols[c] == BitLength(c as int))
    && (forall c {:trigger Holders(nodes, c)} :: Holders(nodes, c) == if c in symbols then 1 else 0)
  }

  /** Replacing the store by one of the same shape that holds the same symbols keeps the invariant. */
  lemma ReplaceTree(e: Encoder, alphabetSize: nat, ns: seq<Node>)
    requires Invariant(e, alphabetSize)
    requires |ns| == |e.nodes| && Shaped(ns, alphabetSize)
    requires multiset(SymbolSlots(ns)) == multiset(SymbolSlots(e.nodes))
    ensures Consistent(ns, e.symbols, e.nyt, e.isTreeFull, alphabetSize)
  {
    assert forall c :: Holders(ns, c) == Holders(e.nodes, c);
  }

  /** How many nodes of the store hold symbol c. */
  function Holders(ns: seq<Node>, c: char): nat {
    multiset(SymbolSlots(ns))[Some(c)]
  }

  /** Lines 125-130: a lone root with id `2 * alphabetSize` and weight 0, which is also the NYT node. */
  function Init(alphabetSize: nat): (e: Encoder)
    ensures Invariant(e, alphabetSize)
    ensures |e.nodes| == 1 && e.nodes[Root].id == 2 * alphabetSize && e.nodes[Root].weight == 0
    ensures e.nyt == Root && e.symbols == map[] && !e.isTreeFull
  {
    var e := Encoder([Node(2 * alphabetSize, 0, None, None, None, None)], map[], Root, false, 0, 0);
    assert SymbolSlots(e.nodes) == [None];
    e
  }

  /** The NYT node's id is `2 * alphabetSize - 2 * |symbols|`, and all ids are distinct. */
  lemma NytId(e: Encoder, alphabetSize: nat)
    requires Invariant(e, alphabetSize)
    ensures e.nyt < |e.nodes| && e.nodes[e.nyt].id == 2 * alphabetSize - 2 * |e.symbols|
    ensures forall j, k :: 0 <= j < k < |e.nodes| ==> e.nodes[j].id != e.nodes[k].id
  {
    forall j, k | 0 <= j < k < |e.nodes|
      ensures e.nodes[j].id != e.nodes[k].id
    {
      IdsDistinct(alphabetSize, j, k);
    }
  }

  /** `addNode(s)` (lines 238-256). */
  function AddNodeStep(e: Encoder, alphabetSize: nat, s: char): (r: Encoder)
    requires e.nyt < |e.nodes|
    ensures r.compInput == e.compInput && r.compOutput == e.compOutput
    ensures r.isTreeFull || s in r.symbols
    ensures e.isTreeFull ==> r.isTreeFull
    ensures e.symbols.Keys <= r.symbols.Keys
  {
    if !e.isTreeFull && |e.symbols| < alphabetSize then
      e.(nodes := Split(e.nodes, e.nyt, s), nyt := |e.nodes|, symbols := e.symbols[s := BitLength(s as int)])
    else
      e.(isTreeFull := true)
  }

  /**
   * With room in the alphabet, `addNode` appends the new NYT node (id of the
   * old NYT minus 2) and the symbol node (minus 1), both of weight 0 under the
   * old NYT node, moves the NYT to the new one and registers the symbol with
   * its bit length; otherwise it only sets the full flag. Either way the
   * invariant holds afterwards.
   */
  lemma AddNodeSpec(e: Encoder, alphabetSize: nat, s: char)
    requires Invariant(e, alphabetSize) && s !in e.symbols
    ensures var r := AddNodeStep(e, alphabetSize, s);
      && r.compInput == e.compInput && r.compOutput == e.compOutput
      && (if !e.isTreeFull && |e.symbols| < alphabetSize then
            && r.nodes == Split(e.nodes, e.nyt, s)
            && r.nodes[r.nyt] == Node(e.nodes[e.nyt].id - 2, 0, None, Some(e.nyt), None, None)
            && r.nodes[r.nyt + 1] == Node(e.nodes[e.nyt].id - 1, 0, Some(s), Some(e.nyt), None, None)
            && r.nodes[e.nyt].left == Some(r.nyt) && r.nodes[e.nyt].right == Some(r.nyt + 1)
            && r.symbols == e.symbols[s := BitLength(s as int)]
            && r.isTreeFull == e.isTreeFull
          else
            r == e.(isTreeFull := true))
  {
    if !e.isTreeFull && |e.symbols| < alphabetSize {
      SplitAppends(e.nodes, e.nyt, s);
    }
  }

  /** `addNode` keeps the invariant. */
  lemma AddNodeKeepsInvariant(e: Encoder, alphabetSize: nat, s: char)
    requires Invariant(e, alphabetSize) && s !in e.symbols
    ensures Invariant(AddNodeStep(e, alphabetSize, s), alphabetSize)
  {
    if !e.isTreeFull && |e.symbols| < alphabetSize {
      AddNodeKeepsShape(e, alphabetSize, s);
      AddNodeKeepsHolders(e, alphabetSize, s);
    }
  }

  /** A split keeps the store's shape and its size in step with the table. */
  lemma AddNodeKeepsShape(e: Encoder, alphabetSize: nat, s: char)
    requires Invariant(e, alphabetSize) && s !in e.symbols
    requires !e.isTreeFull && |e.symbols| < alphabetSize
    ensures var r := AddNodeStep(e, alphabetSize, s);
      && Shaped(r.nodes, alphabetSize)
      && |r.symbols| == |e.symbols| + 1
      && |r.nodes| == 1 + 2 * |r.symbols|
      && r.nyt == NytIndex(|r.symbols|)
  {
    SplitShaped(e.nodes, alphabetSize, |e.symbols|, s);
  }

  /** A split registers the new symbol with its bit length and makes its node the only holder. */
  lemma AddNodeKeepsHolders(e: Encoder, alphabetSize: nat, s: char)
    requires Invariant(e, alphabetSize) && s !in e.symbols
    requires !e.isTreeFull && |e.symbols| < alphabetSize
    ensures var r := AddNodeStep(e, alphabetSize, s);
      && (forall c :: c in r.symbols ==> r.symbols[c] == BitLength(c as int))
      && (forall c :: Holders(r.nodes, c) == if c in r.symbols then 1 else 0)
  {
    var r := AddNodeStep(e, alphabetSize, s);
    assert r.nodes == Split(e.nodes, e.nyt, s) && r.symbols == e.symbols[s := BitLength(s as int)];
    SplitSymbols(e.nodes, e.nyt, s);
    forall c
      ensures Holders(r.nodes, c) == if c in r.symbols then 1 else 0
    {
      assert Holders(e.nodes, c) == if c in e.symbols then 1 else 0;
      assert multiset(SymbolSlots(r.nodes))[Some(c)] ==
             multiset(SymbolSlots(e.nodes))[Some(c)] + multiset{None, Some(s)}[Some(c)];
    }
  }

  /** Right after a successful split the new NYT node's code is the old NYT node's code followed by '0'. */
  lemma AddNodeNytCode(e: Encoder, alphabetSize: nat, s: char)
    requires Invariant(e, alphabetSize) && s !in e.symbols
    requires !e.isTreeFull && |e.symbols| < alphabetSize
    ensures var r := AddNodeStep(e, alphabetSize, s);
      && Invariant(r, alphabetSize)
      && Code(r.nodes, r.nyt) == match Code(e.nodes, e.nyt)
                                 case None => None
                                 case Some(c) => Some(c + "0")
  {
    AddNodeKeepsInvariant(e, alphabetSize, s);
    SplitNytCode(e.nodes, e.nyt, s);
  }

  /**
   * The node holding the registered symbol s, as `findSymbolNode` (lines
   * 205-211) finds it: never the root.
   */
  function Holder(e: Encoder, alphabetSize: nat, s: char): (k: nat)
    requires Invariant(e, alphabetSize) && s in e.symbols
    ensures k < |e.nodes| && k != Root && e.nodes[k].symbol == Some(s)
    ensures FindSymbol(e.nodes, s) == Some(k)
  {
    assert Holders(e.nodes, s) == 1;
    FindHeldSymbol(e.nodes, s);
    FindSymbolSpec(e.nodes, s);
    FindSymbol(e.nodes, s).value
  }

  /**
   * Lines 159-164 for a repeated symbol: swap its node with the highest-id
   * node of the same weight when the test allows. The partner has the same
   * weight, so no weight changes, and the invariant survives; nothing but
   * the store changes.
   */
  function PreSwap(e: Encoder, alphabetSize: nat, s: char): (r: Encoder)
    requires Invariant(e, alphabetSize) && s in e.symbols
    ensures Invariant(r, alphabetSize) && r == e.(nodes := r.nodes)
    ensures forall k :: 0 <= k < |e.nodes| ==> r.nodes[k].weight == e.nodes[k].weight
  {
    var node := Holder(e, alphabetSize, s);
    var highest := HighestInBlock(e.nodes, e.nodes[node].weight);
    HighestAmongSpec(e.nodes, e.nodes[node].weight, |e.nodes|);
    if PreSwapWanted(e.nodes, node, highest) then
      var h := highest.value;
      SwapShaped(e.nodes, alphabetSize, node, h);
      SwapKeepsSymbols(e.nodes, node, h);
      SwapKeepsWeights(e.nodes, node, h);
      ReplaceTree(e, alphabetSize, Swapped(e.nodes, node, h));
      e.(nodes := Swapped(e.nodes, node, h))
    else
      e
  }

  /** A value at two distinct positions of a sequence is counted at least twice. */
  lemma CountedTwice<T>(x: seq<T>, lo: nat, hi: nat)
    requires lo < hi < |x| && x[lo] == x[hi]
    ensures multiset(x)[x[hi]] >= 2
  {
    assert x == x[..hi] + [x[hi]] + x[hi + 1..];
    assert x[..hi][lo] == x[hi];
    assert multiset(x)[x[hi]] == multiset(x[..hi])[x[hi]] + 1 + multiset(x[hi + 1..])[x[hi]];
  }

  /** A symbol counted once in the store sits at one index only. */
  lemma SoleHolder(ns: seq<Node>, c: char, i: nat, j: nat)
    requires Holders(ns, c) == 1 && i < |ns| && j < |ns|
    requires ns[i].symbol == Some(c) && ns[j].symbol == Some(c)
    ensures i == j
  {
    if i < j {
      CountedTwice(SymbolSlots(ns), i, j);
    } else if j < i {
      CountedTwice(SymbolSlots(ns), j, i);
    }
  }

  /**
   * After the pre-swap the symbol sits either where it was or on the
   * highest-id node of its old node's weight, with that same weight.
   */
  lemma PreSwapMovesHolder(e: Encoder, alphabetSize: nat, s: char)
    requires Invariant(e, alphabetSize) && s in e.symbols
    ensures var r := PreSwap(e, alphabetSize, s);
      var before := Holder(e, alphabetSize, s);
      var after := Holder(r, alphabetSize, s);
      && r.nodes[after].weight == e.nodes[before].weight
      && (after == before || HighestInBlock(e.nodes, e.nodes[before].weight) == Some(after))
  {
    var r := PreSwap(e, alphabetSize, s);
    var before := Holder(e, alphabetSize, s);
    var after := Holder(r, alphabetSize, s);
    var highest := HighestInBlock(e.nodes, e.nodes[before].weight);
    HighestAmongSpec(e.nodes, e.nodes[before].weight, |e.nodes|);
    if PreSwapWanted(e.nodes, before, highest) {
      var h := highest.value;
      SwapExchanges(e.nodes, before, h);
      assert r.nodes[h].symbol == Some(s);
      SoleHolder(r.nodes, s, h, after);
    }
  }

  /** The outcome of one call: the new state, the string handed to `encoder`, and whether the call returned. */
  datatype Step = Step(after: Encoder, emitted: Option<string>, finished: bool)

  /** The state after lines 146-157 and the message so far; no message when the NYT node's parent walk never ends. */
  datatype Registered = Registered(after: Encoder, msg: Option<string>)

  /**
   * Lines 146-157 for an unseen symbol: `addNode`, then, once more than one
   * symbol is registered, the code of the (new) NYT node counted as output
   * and put in front of the symbol itself.
   */
  function Register(e: Encoder, alphabetSize: nat, s: char): (r: Registered)
    requires Invariant(e, alphabetSize) && s !in e.symbols
    ensures Invariant(r.after, alphabetSize)
    ensures !r.after.isTreeFull ==> s in r.after.symbols
    ensures r.after.compInput == e.compInput && e.compOutput <= r.after.compOutput
    ensures r.msg.Some? ==> |r.msg.value| > 0 && r.msg.value[|r.msg.value| - 1] == s
  {
    AddNodeKeepsInvariant(e, alphabetSize, s);
    var added := AddNodeStep(e, alphabetSize, s);
    if |added.symbols| > 1 then
      match Code(added.nodes, added.nyt)
      case None => Registered(added, None)
      case Some(c) => Registered(added.(compOutput := added.compOutput + |c|), Some(c + [s]))
    else
      Registered(added, Some([s]))
  }

  /**
   * `encodeCharacter(s)` (lines 137-197). The ascent may take at most `fuel`
   * steps. `finished` is false when a loop of the source would run on: the
   * parent walk of `getHuffmanCode` never reaching the root, or the ascent
   * still below the root when the fuel is spent; the state is then the one
   * reached at that point.
   */
  function EncodeStep(e: Encoder, alphabetSize: nat, s: char, fuel: nat): (r: Step)
    requires Invariant(e, alphabetSize)
    ensures Invariant(r.after, alphabetSize)
  {
    if s !in e.symbols then
      var reg := Register(e, alphabetSize, s);
      match reg.msg
      case None => Step(reg.after, None, false)
      case Some(m) => UpdateTree(reg.after, alphabetSize, s, m, false, fuel)
    else
      UpdateTree(PreSwap(e, alphabetSize, s), alphabetSize, s, [], true, fuel)
  }

  /**
   * Lines 167-196: unless an unseen symbol met a full tree, the symbol goes
   * through `Admitted`; in every case the weights are refreshed from the root.
   */
  function UpdateTree(e: Encoder, alphabetSize: nat, s: char, msg: string, isInTree: bool, fuel: nat): (r: Step)
    requires Invariant(e, alphabetSize)
    requires !e.isTreeFull || isInTree ==> s in e.symbols
    ensures Invariant(r.after, alphabetSize)
  {
    if !e.isTreeFull || isInTree then
      Admitted(e, alphabetSize, s, msg, isInTree, fuel)
    else
      FixWShaped(e.nodes, alphabetSize, Root, |e.nodes|);
      ReplaceTree(e, alphabetSize, FixW(e.nodes, Root, |e.nodes|));
      Step(e.(nodes := FixW(e.nodes, Root, |e.nodes|)), None, true)
  }

  /** The state after lines 169-178, the node holding the symbol, and the message handed to `encoder`. */
  datatype Counted = Counted(after: Encoder, node: nat, emitted: Option<string>)

  /**
   * Lines 169-178: count the symbol's bits as input, find the node holding
   * it, and for a repeated symbol append that node's code to the message
   * and count its bits as output. Only the two counters change.
   */
  function CountSymbol(e: Encoder, alphabetSize: nat, s: char, msg: string, isInTree: bool): (r: Counted)
    requires Invariant(e, alphabetSize) && s in e.symbols
    ensures r.after == e.(compInput := r.after.compInput, compOutput := r.after.compOutput)
    ensures r.node < |e.nodes| && r.node != Root && e.nodes[r.node].symbol == Some(s)
  {
    var counted := e.(compInput := e.compInput + e.symbols[s]);
    var node := Holder(counted, alphabetSize, s);
    match (if isInTree then Code(counted.nodes, node) else Some([]))
    case None => Counted(counted, node, None)
    case Some(c) => Counted(counted.(compOutput := counted.compOutput + |c|), node, Some(msg + c))
  }

  /**
   * Lines 169-196 for an admitted symbol: count and code it, then, when a
   * message was handed on, bump its node, ascend and refresh the weights.
   */
  function Admitted(e: Encoder, alphabetSize: nat, s: char, msg: string, isInTree: bool, fuel: nat): (r: Step)
    requires Invariant(e, alphabetSize) && s in e.symbols
    ensures Invariant(r.after, alphabetSize)
  {
    var counted := CountSymbol(e, alphabetSize, s, msg, isInTree);
    if counted.emitted.None? then
      Step(counted.after, None, false)
    else
      var tree := Propagate(counted.after.nodes, alphabetSize, counted.node, fuel);
      ReplaceTree(counted.after, alphabetSize, tree.nodes);
      Step(counted.after.(nodes := tree.nodes), counted.emitted, tree.finished)
  }

  /**
   * Lines 181-196 once the message is out: bump the node holding the symbol,
   * ascend to the root, and refresh all weights from the root when the ascent
   * gets there. The shape and the held symbols survive, and no weight drops
   * during the ascent.
   */
  function Propagate(ns: seq<Node>, alphabetSize: nat, node: nat, fuel: nat): (r: Climbed)
    requires Shaped(ns, alphabetSize) && node < |ns|
    ensures |r.nodes| == |ns| && Shaped(r.nodes, alphabetSize)
    ensures multiset(SymbolSlots(r.nodes)) == multiset(SymbolSlots(ns))
  {
    BumpShaped(ns, alphabetSize, node);
    var climbed := Ascend(Bump(ns, node), alphabetSize, node, fuel);
    if climbed.finished then
      FixWShaped(climbed.nodes, alphabetSize, Root, |climbed.nodes|);
      Climbed(FixW(climbed.nodes, Root, |climbed.nodes|), Root, true)
    else
      climbed
  }

  /** Lines 167-196 leave the table, the NYT node and the full flag alone. */
  lemma UpdateTreeKeepsTable(e: Encoder, alphabetSize: nat, s: char, msg: string, isInTree: bool, fuel: nat)
    requires Invariant(e, alphabetSize)
    requires !e.isTreeFull || isInTree ==> s in e.symbols
    ensures var r := UpdateTree(e, alphabetSize, s, msg, isInTree, fuel);
      r.after.symbols == e.symbols && r.after.nyt == e.nyt && r.after.isTreeFull == e.isTreeFull
  {
  }

  /**
   * An admitted symbol adds its bit length to the input count; the message
   * handed on is the given one, followed by the code of the symbol's node
   * for a repeated symbol, and the output count grows by that code's length.
   * When that node's parent walk never reaches the root nothing is handed on.
   */
  lemma UpdateTreeAdmitted(e: Encoder, alphabetSize: nat, s: char, msg: string, isInTree: bool, fuel: nat)
    requires Invariant(e, alphabetSize)
    requires !e.isTreeFull || isInTree
    requires s in e.symbols
    ensures var r := UpdateTree(e, alphabetSize, s, msg, isInTree, fuel);
      && r.after.compInput == e.compInput + e.symbols[s]
      && (if isInTree then
            var code := Code(e.nodes, Holder(e, alphabetSize, s));
            && (code.None? ==> r.emitted.None? && !r.finished && r.after.compOutput == e.compOutput)
            && (code.Some? ==> r.emitted == Some(msg + code.value) &&
                               r.after.compOutput == e.compOutput + |code.value|)
          else
            r.emitted == Some(msg) && r.after.compOutput == e.compOutput)
  {
    assert msg + [] == msg;
  }

  /** An unseen symbol meeting a full tree emits nothing, counts nothing and only refreshes the weights. */
  lemma UpdateTreeRejected(e: Encoder, alphabetSize: nat, s: char, msg: string, fuel: nat)
    requires Invariant(e, alphabetSize) && e.isTreeFull
    ensures var r := UpdateTree(e, alphabetSize, s, msg, false, fuel);
      && r.emitted == None && r.finished
      && r.after.compInput == e.compInput && r.after.compOutput == e.compOutput
      && r.after.nodes == FixW(e.nodes, Root, |e.nodes|)
  {
  }

  /** The very first symbol of a fresh encoder is emitted bare, with no code in front of it. */
  lemma EncodeFirstSymbol(e: Encoder, alphabetSize: nat, s: char, fuel: nat)
    requires Invariant(e, alphabetSize) && e.symbols == map[] && alphabetSize > 0
    ensures var r := EncodeStep(e, alphabetSize, s, fuel);
      && r.emitted == Some([s])
      && r.after.symbols == map[s := BitLength(s as int)]
      && r.after.compInput == e.compInput + BitLength(s as int)
      && r.after.compOutput == e.compOutput
      && r.after.nyt == 1 && r.after.nodes[1].id == 2 * alphabetSize - 2
  {
    AddNodeSpec(e, alphabetSize, s);
    AddNodeKeepsInvariant(e, alphabetSize, s);
    var added := AddNodeStep(e, alphabetSize, s);
    assert |added.symbols| == 1;
    UpdateTreeKeepsTable(added, alphabetSize, s, [s], false, fuel);
    UpdateTreeAdmitted(added, alphabetSize, s, [s], false, fuel);
  }

  /**
   * A later unseen symbol, with room in the alphabet, is emitted after the
   * code of the NYT node as it is after the split: the old NYT node's code
   * followed by '0'. Only those code bits count as output, and the symbol's
   * bit length counts as input. When the old NYT node's parent walk never
   * reaches the root, the call never returns.
   */
  lemma EncodeNewSymbol(e: Encoder, alphabetSize: nat, s: char, fuel: nat)
    requires Invariant(e, alphabetSize) && s !in e.symbols
    requires 0 < |e.symbols| < alphabetSize
    ensures var r := EncodeStep(e, alphabetSize, s, fuel);
      && r.after.symbols == e.symbols[s := BitLength(s as int)]
      && r.after.nyt == |e.nodes|
      && !r.after.isTreeFull
      && match Code(e.nodes, e.nyt)
         case None => r.emitted == None && !r.finished && r.after.compInput == e.compInput
         case Some(c) =>
           && r.emitted == Some(c + "0" + [s])
           && r.after.compOutput == e.compOutput + |c| + 1
           && r.after.compInput == e.compInput + BitLength(s as int)
  {
    AddNodeSpec(e, alphabetSize, s);
    AddNodeNytCode(e, alphabetSize, s);
    var added := AddNodeStep(e, alphabetSize, s);
    assert |added.symbols| > 1;
    match Code(added.nodes, added.nyt)
    case None =>
    case Some(c) =>
      var coded := added.(compOutput := added.compOutput + |c|);
      UpdateTreeKeepsTable(coded, alphabetSize, s, c + [s], false, fuel);
      UpdateTreeAdmitted(coded, alphabetSize, s, c + [s], false, fuel);
  }

  /**
   * A repeated symbol is counted as input again and emitted as the code of
   * the node holding it after the pre-swap; every emitted bit counts as
   * output. The table, the NYT node and the full flag stay as they were.
   */
  lemma EncodeRepeatedSymbol(e: Encoder, alphabetSize: nat, s: char, fuel: nat)
    requires Invariant(e, alphabetSize) && s in e.symbols
    ensures var r := EncodeStep(e, alphabetSize, s, fuel);
      var swapped := PreSwap(e, alphabetSize, s);
      && r.emitted == Code(swapped.nodes, Holder(swapped, alphabetSize, s))
      && r.after.symbols == e.symbols && r.after.nyt == e.nyt && r.after.isTreeFull == e.isTreeFull
      && r.after.compInput == e.compInput + e.symbols[s]
      && (r.emitted.None? ==> !r.finished && r.after.compOutput == e.compOutput)
      && (r.emitted.Some? ==> r.after.compOutput == e.compOutput + |r.emitted.value|)
  {
    var swapped := PreSwap(e, alphabetSize, s);
    assert EncodeStep(e, alphabetSize, s, fuel) == UpdateTree(swapped, alphabetSize, s, [], true, fuel);
    UpdateTreeKeepsTable(swapped, alphabetSize, s, [], true, fuel);
    UpdateTreeEmitsCode(swapped, alphabetSize, s, fuel);
  }

  /** For a repeated symbol the message is exactly the code of its node, and its length is the output added. */
  lemma UpdateTreeEmitsCode(e: Encoder, alphabetSize: nat, s: char, fuel: nat)
    requires Invariant(e, alphabetSize) && s in e.symbols
    ensures var r := UpdateTree(e, alphabetSize, s, [], true, fuel);
      && r.emitted == Code(e.nodes, Holder(e, alphabetSize, s))
      && r.after.compInput == e.compInput + e.symbols[s]
      && (r.emitted.None? ==> !r.finished && r.after.compOutput == e.compOutput)
      && (r.emitted.Some? ==> r.after.compOutput == e.compOutput + |r.emitted.value|)
  {
    var code := Code(e.nodes, Holder(e, alphabetSize, s));
    if code.Some? {
      assert [] + code.value == code.value;
    }
  }

  /**
   * An unseen symbol arriving at a full alphabet emits nothing, registers
   * nothing and counts no input; it sets the full flag, refreshes the
   * weights and, with more than one symbol registered, adds the NYT node's
   * code length to the output count.
   */
  lemma EncodeWhenFull(e: Encoder, alphabetSize: nat, s: char, fuel: nat)
    requires Invariant(e, alphabetSize) && s !in e.symbols
    requires e.isTreeFull || |e.symbols| == alphabetSize
    ensures var r := EncodeStep(e, alphabetSize, s, fuel);
      && r.emitted == None
      && r.after.isTreeFull
      && r.after.symbols == e.symbols && r.after.nyt == e.nyt
      && r.after.compInput == e.compInput
      && (|e.symbols| <= 1 ==> r.finished && r.after.compOutput == e.compOutput)
      && (|e.symbols| > 1 ==>
            (r.finished <==> Code(e.nodes, e.nyt).Some?) &&
            (r.finished ==> r.after.compOutput == e.compOutput + |Code(e.nodes, e.nyt).value|))
      && (r.finished ==> r.after.nodes == FixW(e.nodes, Root, |e.nodes|))
  {
    AddNodeSpec(e, alphabetSize, s);
    AddNodeKeepsInvariant(e, alphabetSize, s);
    var added := AddNodeStep(e, alphabetSize, s);
    if |added.symbols| > 1 {
      match Code(added.nodes, added.nyt)
      case None =>
      case Some(c) =>
        var coded := added.(compOutput := added.compOutput + |c|);
        UpdateTreeKeepsTable(coded, alphabetSize, s, c + [s], false, fuel);
        UpdateTreeRejected(coded, alphabetSize, s, c + [s], fuel);
    } else {
      UpdateTreeKeepsTable(added, alphabetSize, s, [s], false, fuel);
      UpdateTreeRejected(added, alphabetSize, s, [s], fuel);
    }
  }

  /**
   * Across any call the full flag never clears, no symbol is unregistered or
   * re-valued, and neither counter decreases.
   */
  lemma EncodeMonotone(e: Encoder, alphabetSize: nat, s: char, fuel: nat)
    requires Invariant(e, alphabetSize)
    ensures var r := EncodeStep(e, alphabetSize, s, fuel);
      && (e.isTreeFull ==> r.after.isTreeFull)
      && (forall c :: c in e.symbols ==> c in r.after.symbols && r.after.symbols[c] == e.symbols[c])
      && e.compInput <= r.after.compInput
      && e.compOutput <= r.after.compOutput
  {
    if s !in e.symbols {
      AddNodeSpec(e, alphabetSize, s);
      AddNodeKeepsInvariant(e, alphabetSize, s);
      var added := AddNodeStep(e, alphabetSize, s);
      if |added.symbols| > 1 {
        match Code(added.nodes, added.nyt)
        case None =>
        case Some(c) =>
          UpdateTreeGrows(added.(compOutput := added.compOutput + |c|), alphabetSize, s, c + [s], false, fuel);
      } else {
        UpdateTreeGrows(added, alphabetSize, s, [s], false, fuel);
      }
    } else {
      UpdateTreeGrows(PreSwap(e, alphabetSize, s), alphabetSize, s, [], true, fuel);
    }
  }

  /**
   * Line 196 holds for the tree an encoding step leaves behind: once the
   * step gets as far as the refresh from the root, every node with two
   * children that the root reaches weighs the sum of its children.
   */
  lemma EncodeSumsWeights(e: Encoder, alphabetSize: nat, s: char, fuel: nat)
    requires Invariant(e, alphabetSize)
    ensures var r := EncodeStep(e, alphabetSize, s, fuel);
      r.finished ==> WeightsSummed(r.after.nodes)
  {
    if s !in e.symbols {
      AddNodeSpec(e, alphabetSize, s);
      AddNodeKeepsInvariant(e, alphabetSize, s);
      var added := AddNodeStep(e, alphabetSize, s);
      if |added.symbols| > 1 {
        match Code(added.nodes, added.nyt)
        case None =>
        case Some(c) =>
          UpdateTreeSumsWeights(added.(compOutput := added.compOutput + |c|), alphabetSize, s, c + [s], false, fuel);
      } else {
        UpdateTreeSumsWeights(added, alphabetSize, s, [s], false, fuel);
      }
    } else {
      UpdateTreeSumsWeights(PreSwap(e, alphabetSize, s), alphabetSize, s, [], true, fuel);
    }
  }

  /** Lines 167-196 end, whenever they reach line 196, with the weights summed from the root. */
  lemma UpdateTreeSumsWeights(e: Encoder, alphabetSize: nat, s: char, msg: string, isInTree: bool, fuel: nat)
    requires Invariant(e, alphabetSize)
    requires !e.isTreeFull || isInTree ==> s in e.symbols
    ensures var r := UpdateTree(e, alphabetSize, s, msg, isInTree, fuel);
      r.finished ==> WeightsSummed(r.after.nodes)
  {
    if !e.isTreeFull || isInTree {
      var counted := CountSymbol(e, alphabetSize, s, msg, isInTree);
      if counted.emitted.Some? {
        PropagateSumsWeights(counted.after.nodes, alphabetSize, counted.node, fuel);
      }
    } else {
      FixWFromRoot(e.nodes);
    }
  }

  /** An ascent that reaches the root is followed by a refresh that sums every reachable node's weight. */
  lemma PropagateSumsWeights(ns: seq<Node>, alphabetSize: nat, node: nat, fuel: nat)
    requires Shaped(ns, alphabetSize) && node < |ns|
    ensures var r := Propagate(ns, alphabetSize, node, fuel);
      r.finished ==> WeightsSummed(r.nodes)
  {
    BumpShaped(ns, alphabetSize, node);
    var climbed := Ascend(Bump(ns, node), alphabetSize, node, fuel);
    if climbed.finished {
      FixWFromRoot(climbed.nodes);
    }
  }

  /** Lines 167-196 keep the table and never lower a counter. */
  lemma UpdateTreeGrows(e: Encoder, alphabetSize: nat, s: char, msg: string, isInTree: bool, fuel: nat)
    requires Invariant(e, alphabetSize)
    requires !e.isTreeFull || isInTree ==> s in e.symbols
    ensures var r := UpdateTree(e, alphabetSize, s, msg, isInTree, fuel);
      && r.after.symbols == e.symbols && r.after.isTreeFull == e.isTreeFull
      && e.compInput <= r.after.compInput && e.compOutput <= r.after.compOutput
  {
    UpdateTreeKeepsTable(e, alphabetSize, s, msg, isInTree, fuel);
    if !e.isTreeFull || isInTree {
      UpdateTreeAdmitted(e, alphabetSize, s, msg, isInTree, fuel);
    } else {
      UpdateTreeRejected(e, alphabetSize, s, msg, fuel);
    }
  }
}
