# Adaptive Huffman encoder: a verified model

This project models `AdaptiveHuffman` from js/huffman.js. It is a one-pass
adaptive Huffman encoder in the FGK (Faller–Gallager–Knuth) style. The
encoder keeps a small store of tree nodes, a symbol table, the NYT
("not yet transmitted") node, a full flag and two bit counters. Each call
of `encodeCharacter` does three things:

- It splits the NYT leaf for an unseen symbol. For a repeated symbol it may
  first swap that symbol's leaf with the highest-id node of equal weight.
- It hands a bit string (plus the raw character, for a new symbol) to the
  `encoder` callback.
- It walks back to the root, bumping weights and swapping nodes, and then
  re-sums the weights of internal nodes from the root.

The model has four modules:

- `Options` (options.dfy): the optional value used for links and searches.
- `HuffmanTree` (tree.dfy): the node store as an arena. It is a
  `seq<Node>` in creation order, so a node's index stands for the node
  object, node 0 is the root, and `parent`/`left`/`right` are indices. The
  module defines the store operations as functions: bump, swap, split, the
  two linear scans, the parent walk that yields a code, the weight refresh,
  and one step of the ascent. Lemmas state what each of them does.
- `EncoderModel` (encoder_model.dfy): the whole closure state as a value
  (`Encoder`) and the invariant that holds from construction onward. One
  `encodeCharacter` call is given as a function (`EncodeStep`), composed
  of the same pieces as the source. Lemmas state what a call emits and
  how it moves the counters, the table and the full flag.
- `AdaptiveHuffmanCoder` (adaptive_huffman.dfy): the class
  `AdaptiveHuffman`. Its fields are the closure variables, and its methods
  update them in place with the loops of the source. Each method is proved
  to move the state exactly as the corresponding function says.

What a call emits follows the code:

- For a new symbol, `addNode` (line 149) runs before
  `getHuffmanCode(NYTNode)` (line 153). The prefix is therefore the code
  of the new NYT node, which is the old NYT node's code followed by `0`
  (`AddNodeNytCode`, `EncodeNewSymbol`). The first symbol gets no prefix
  (line 152).
- A new symbol's prefix is followed by the character itself (line 157).
- `encodeCharacter` returns nothing. The output is the string handed to
  `encoder`, and the model returns it as `emitted`.

`swapNodes` exchanges `left`, `right`, `parent`, `symbol` and `weight`
without re-pointing any neighbour, and the model keeps that behaviour. A
swap hands one node's pair of children to the other node, so every node
keeps at most one parent by child link and the root keeps none (`TreeLinks`,
`SwapTreeLinks`, `SplitTreeLinks`). The part of the store reachable from the
root by child links is therefore a tree (`PathsUnique`, `RootPathShort`).
Outside that part a swap can make a node its own child, and the `parent`
fields can disagree with the child links. So the parent walk of
`getHuffmanCode` can run forever in the source, and the ascent loop is not
proved to end:

- The code walk is bounded by the number of nodes. `CodeTerminates` proves
  that this bound is exact: the walk fails only when the source's walk
  never reaches the root.
- The ascent takes an explicit `fuel`. `finished` is false when it is cut
  short, or when a code walk never ends.

`fixWeights` follows child links only. Started at the root (line 196) with
as many levels as there are nodes, it never runs out of levels. Afterwards
every node reachable from the root that has both children weighs the sum of
its children (`FixWFromRoot`). Every encoding step that gets as far as line
196 therefore leaves the weights summed (`EncodeSumsWeights`).

## Model

| member | source | states |
|---|---|---|
| HuffmanTree.IdsDistinct | js/huffman.js:243-244 | nodes at different positions of the store have different ids |
| HuffmanTree.RootIdLargest | js/huffman.js:127-128 | the root's id `2 * alphabetSize` exceeds every other id, and no id within the alphabet is negative |
| HuffmanTree.NewIdsBelowEarlier | js/huffman.js:243-244 | the two nodes of a split get the old NYT id minus 2 (new NYT) and minus 1 (symbol), both below every earlier id |
| HuffmanTree.BitLength | js/huffman.js:251 | the bit length counted for a character is at least one digit (see `BitLengthBounds`) |
| HuffmanTree.BitLengthBounds | js/huffman.js:251 | `BitLength(n)` is the number of binary digits of n: `2^(b-1) <= n < 2^b`, with 0 taking one digit |
| HuffmanTree.Bump | js/huffman.js:92-95 | the store keeps its size and node k weighs one more (see `BumpAddsOne`) |
| HuffmanTree.BumpAddsOne | js/huffman.js:92-95 | `increaseWeight` adds exactly one to one node's weight and leaves every other field and node alone |
| HuffmanTree.BumpShaped | js/huffman.js:92-95 | a bump keeps the store's shape and every held symbol |
| HuffmanTree.Swapped | js/huffman.js:219-230 | the store keeps its size and both swapped nodes keep their ids (see `SwapExchanges`) |
| HuffmanTree.SwapExchanges | js/huffman.js:219-230 | a swap puts b's five fields on a and a's on b, keeps both ids, and changes no other node |
| HuffmanTree.SwapTwice | js/huffman.js:219-230 | swapping the same pair twice restores the store |
| HuffmanTree.SwapKeepsWeights | js/huffman.js:161-163 | swapping two nodes of equal weight, as both call sites do, changes no node's weight |
| HuffmanTree.SwapKeepsSymbols | js/huffman.js:222-224 | a swap keeps the multiset of held symbols |
| HuffmanTree.SwapShaped | js/huffman.js:219-230 | swapping two non-root nodes keeps links in range, the root parentless, and ids by creation order |
| HuffmanTree.SwapTreeLinks | js/huffman.js:219-230 | a swap moves whole pairs of children between two nodes, so the child-link conditions still hold: both children or none, two different children, the root nobody's child, and no node the child of two nodes |
| HuffmanTree.Split | js/huffman.js:243-249 | the store grows by two nodes; the old NYT node's left is the first new node, which holds no symbol, and its right is the second, which holds s (see `SplitAppends`) |
| HuffmanTree.SplitAppends | js/huffman.js:243-249 | a split appends the new NYT node and then the symbol node, both of weight 0 under the old NYT node, and only re-links the old NYT node's children |
| HuffmanTree.SplitSymbols | js/huffman.js:243-249 | a split adds exactly one empty slot and one slot holding the new symbol |
| HuffmanTree.SplitTreeLinks | js/huffman.js:243-249 | the split gives the NYT node two fresh children, so the same child-link conditions still hold |
| HuffmanTree.SplitShaped | js/huffman.js:242-249 | with room in the alphabet, a split keeps the store's shape |
| HuffmanTree.HighestAmong | js/huffman.js:264-279 | after n nodes the scan holds either nothing or one of those n nodes, of weight w and with a non-negative id (see `HighestAmongSpec`) |
| HuffmanTree.HighestInBlock | js/huffman.js:264-279 | `getHighestIdInBlock(w)` returns nothing or a node of the store of weight w |
| HuffmanTree.HighestAmongSpec | js/huffman.js:264-279 | the scan returns a node of weight w whose id is at least every other non-negative id of weight w, and returns nothing iff no node of weight w has a non-negative id |
| HuffmanTree.HighestInBlockShaped | js/huffman.js:264-279 | in a shaped store, where every id is non-negative, the scan returns a node of weight w with the largest id of its weight, or nothing iff no node weighs w |
| HuffmanTree.FindFrom | js/huffman.js:206-210 | the loop from index i returns nothing or a node at or after i that holds s (see `FindFromSpec`) |
| HuffmanTree.FindSymbol | js/huffman.js:205-211 | `findSymbolNode(s)` returns nothing or a node of the store that holds s (see `FindSymbolSpec`) |
| HuffmanTree.FindFromSpec | js/huffman.js:206-210 | the scan from index i returns the first node from i on that holds s, or nothing iff none does |
| HuffmanTree.FindSymbolSpec | js/huffman.js:205-211 | `findSymbolNode` returns the lowest-index node holding s, or nothing iff no node holds s |
| HuffmanTree.FindHeldSymbol | js/huffman.js:205-211 | a symbol present in the store is always found |
| HuffmanTree.CodeOf | js/huffman.js:287-298 | the walk yields the empty code exactly at the root, and a found code has at most one bit per allowed step (see `CodeOfSteps`) |
| HuffmanTree.Code | js/huffman.js:287-298 | `getHuffmanCode(node)` is empty exactly for the root, and a found code is no longer than the number of nodes (see `CodeTerminates`) |
| HuffmanTree.CodeOfSteps | js/huffman.js:287-298 | a code has one bit per parent step: the walk reaches the root after exactly its length, the bit for each step is '0' iff the child is its parent's `left`, and every bit is '0' or '1' |
| HuffmanTree.CodeOfMoreFuel | js/huffman.js:291-295 | more steps than the walk needed do not change a found code |
| HuffmanTree.ReachedGivesCode | js/huffman.js:291-295 | a walk that reaches the root within the step bound yields a code |
| HuffmanTree.CodeTerminates | js/huffman.js:291-295 | the code is found iff the source's parent walk ever reaches the root |
| HuffmanTree.SplitNytCode | js/huffman.js:243-245 | right after a split, the new NYT node's code is the old NYT node's code followed by '0', and neither exists without the other |
| HuffmanTree.FixW | js/huffman.js:100-106 | the refresh keeps the store well linked and changes weights only |
| HuffmanTree.FixWWeights | js/huffman.js:100-106 | for any start node and depth: nodes without both children keep their weight, and the start node (when it has two children other than itself) ends with the sum of its children's final weights; `FixWFromRoot` states the sum for every node below the root |
| HuffmanTree.FixWFrame | js/huffman.js:100-106 | the refresh from a node changes no node outside the subtree it walks |
| HuffmanTree.PathsUnique | js/huffman.js:101-103 | when every node has at most one parent by child link and the root none, a node is reached from the root by at most one path of child links |
| HuffmanTree.RootPathShort | js/huffman.js:101-103 | under the same conditions, a path of child links from the root has at most as many nodes as the store |
| HuffmanTree.FixWFromRoot | js/huffman.js:196 | `root.fixWeights()` with as many levels as there are nodes never runs out of levels, and afterwards every node reachable from the root by child links that has both children weighs the sum of its children |
| HuffmanTree.FixWShaped | js/huffman.js:100-106 | the refresh keeps the shape and every held symbol |
| HuffmanTree.SwapWanted | js/huffman.js:188 | the ascent's swap test only passes for a highest node that exists, is not the root and differs from the parent, which is not the root either |
| HuffmanTree.PreSwapWanted | js/huffman.js:162 | the pre-swap test only passes for a highest node that exists, is not the root and differs from the symbol's node, which is not the root either |
| HuffmanTree.StepUp | js/huffman.js:185-192 | one ascent step keeps the shape and the held symbols and adds one to the weight of the node it stops at, changing no other weight; without a swap it stops at the parent; with a swap it stops at the highest-id node of the parent's weight, which receives the parent's fields while the parent's slot receives that node's fields |
| HuffmanTree.SwapBump | js/huffman.js:188-192 | swapping the parent with a node of its weight and bumping that node keeps the shape and the held symbols, moves the fields both ways, and changes only the bumped node's weight |
| HuffmanTree.Ascend | js/huffman.js:184-193 | the ascent keeps the shape and the held symbols, lowers no weight, and reports completion iff it stopped at the root |
| EncoderModel.Init | js/huffman.js:125-130 | a fresh encoder is a lone root with id `2 * alphabetSize` and weight 0, which is the NYT node, with an empty table; the invariant holds |
| EncoderModel.NytId | js/huffman.js:243-246 | the NYT node's id is `2 * alphabetSize - 2 * |symbols|`, and all ids are distinct |
| EncoderModel.AddNodeStep | js/huffman.js:238-256 | `addNode` leaves the counters alone, never clears the flag, drops no symbol, and either registers the symbol or sets the flag |
| EncoderModel.AddNodeSpec | js/huffman.js:238-256 | with room, `addNode` appends the two described nodes, moves the NYT node to the new one and registers the symbol with its bit length; otherwise it only sets the full flag; the counters stay |
| EncoderModel.AddNodeKeepsInvariant | js/huffman.js:238-256 | `addNode` keeps the invariant |
| EncoderModel.AddNodeKeepsShape | js/huffman.js:242-249 | a split keeps `|nodes| == 1 + 2 * |symbols|`, the NYT index and the shape |
| EncoderModel.AddNodeKeepsHolders | js/huffman.js:248-251 | after a split every registered symbol has its bit length and exactly one holder, and no other symbol is held |
| EncoderModel.AddNodeNytCode | js/huffman.js:243-246 | after a successful `addNode`, the NYT node's code is the old NYT node's code followed by '0' |
| EncoderModel.Holder | js/huffman.js:172 | the node found for a registered symbol holds it, is not the root, and is what `findSymbolNode` returns |
| EncoderModel.PreSwap | js/huffman.js:159-164 | the pre-swap changes only the store, keeps the invariant, and changes no weight |
| EncoderModel.PreSwapMovesHolder | js/huffman.js:159-164 | after the pre-swap the symbol sits where it was or on the highest-id node of its old weight, with that same weight |
| EncoderModel.Register | js/huffman.js:146-157 | registering an unseen symbol keeps the invariant; when the flag stays clear the symbol is registered; the input count stays, the output count does not drop, and the message ends with the symbol |
| EncoderModel.EncodeStep | js/huffman.js:137-197 | one call keeps the invariant |
| EncoderModel.UpdateTree | js/huffman.js:167-196 | the update step keeps the invariant |
| EncoderModel.CountSymbol | js/huffman.js:169-178 | counting and coding changes only the two counters, and the node used holds the symbol and is not the root |
| EncoderModel.Admitted | js/huffman.js:169-196 | the update of an admitted symbol keeps the invariant |
| EncoderModel.Propagate | js/huffman.js:180-196 | the bump, the ascent and the refresh keep the store's size, shape and held symbols |
| EncoderModel.UpdateTreeKeepsTable | js/huffman.js:167-196 | the update leaves the table, the NYT node and the full flag alone |
| EncoderModel.UpdateTreeAdmitted | js/huffman.js:169-178 | an admitted symbol adds its bit length to the input count; the message gets the node's code for a repeated symbol, whose length is added to the output count; nothing is handed on when that walk never ends |
| EncoderModel.UpdateTreeRejected | js/huffman.js:167-196 | an unseen symbol that met a full tree emits nothing, counts nothing and only refreshes the weights |
| EncoderModel.EncodeFirstSymbol | js/huffman.js:151-157 | the first symbol of a fresh encoder is emitted bare, registered with its bit length, counted as input only, and the NYT node moves to index 1 with id `2 * alphabetSize - 2` |
| EncoderModel.EncodeNewSymbol | js/huffman.js:146-157 | a later unseen symbol with room is emitted after the old NYT node's code and '0'; those bits are the only output added; its bit length is the input added; nothing is emitted when the old NYT node's walk never ends |
| EncoderModel.EncodeRepeatedSymbol | js/huffman.js:159-177 | a repeated symbol is emitted as the code of its node after the pre-swap; its bit length is added to the input count and the code's length to the output count; the table, the NYT node and the flag stay |
| EncoderModel.UpdateTreeEmitsCode | js/huffman.js:172-177 | for a repeated symbol the message is exactly its node's code, and its length is the output added |
| EncoderModel.EncodeWhenFull | js/huffman.js:146-169 | an unseen symbol at a full alphabet emits nothing and registers nothing; it sets the flag and counts no input; with more than one symbol registered it adds the NYT node's code length to the output; it refreshes the weights |
| EncoderModel.EncodeMonotone | js/huffman.js:137-197 | across any call the full flag never clears, no symbol is dropped or re-valued, and neither counter decreases |
| EncoderModel.EncodeSumsWeights | js/huffman.js:137-197 | a call that gets as far as line 196 leaves every node below the root that has both children weighing the sum of its children |
| EncoderModel.UpdateTreeSumsWeights | js/huffman.js:167-196 | the update, whenever it reaches line 196, leaves the weights summed from the root |
| EncoderModel.PropagateSumsWeights | js/huffman.js:180-196 | bump and ascent, once the ascent reaches the root, are followed by a refresh that leaves the weights summed from the root |
| EncoderModel.UpdateTreeGrows | js/huffman.js:167-196 | the update keeps the table and the flag and lowers no counter |
| AdaptiveHuffmanCoder.Reverse | js/huffman.js:297 | the result is the input read back to front |
| AdaptiveHuffmanCoder.AdaptiveHuffman.constructor | js/huffman.js:125-130 | the new object is `Init(alphabetSize)` and satisfies the invariant |
| AdaptiveHuffmanCoder.AdaptiveHuffman.IncreaseWeight | js/huffman.js:92-95 | the store becomes `Bump` of the old store (see `BumpAddsOne`); nothing else changes |
| AdaptiveHuffmanCoder.AdaptiveHuffman.SwapNodes | js/huffman.js:219-230 | the store becomes `Swapped` of the old store (see `SwapExchanges`, `SwapTwice`); nothing else changes |
| AdaptiveHuffmanCoder.AdaptiveHuffman.AddNode | js/huffman.js:238-256 | the state becomes `AddNodeStep` of the old state (see `AddNodeSpec`) |
| AdaptiveHuffmanCoder.AdaptiveHuffman.FixWeights | js/huffman.js:100-106 | the recursive refresh leaves the store equal to `FixW` of the old store (see `FixWWeights`) |
| AdaptiveHuffmanCoder.AdaptiveHuffman.FindSymbolNode | js/huffman.js:205-211 | the loop returns the lowest-index node holding the symbol, or nothing iff no node holds it |
| AdaptiveHuffmanCoder.AdaptiveHuffman.HighestIdInBlock | js/huffman.js:264-279 | the loop returns a node of weight w with an id at least every non-negative id of weight w, or nothing iff there is none |
| AdaptiveHuffmanCoder.AdaptiveHuffman.HuffmanCode | js/huffman.js:287-298 | the walk-and-reverse loop returns `Code` of the node: a string of '0'/'1', found iff the parent walk ever reaches the root |
| AdaptiveHuffmanCoder.AdaptiveHuffman.StepToParent | js/huffman.js:185-192 | one loop iteration moves the store and the current node exactly as `StepUp` |
| AdaptiveHuffmanCoder.AdaptiveHuffman.ClimbToRoot | js/huffman.js:184-193 | the loop leaves the store and the node reached exactly as `Ascend` |
| AdaptiveHuffmanCoder.AdaptiveHuffman.PropagateFrom | js/huffman.js:180-196 | bump, climb and refresh leave the store as `Propagate` and report whether the root was reached |
| AdaptiveHuffmanCoder.AdaptiveHuffman.CountAndCode | js/huffman.js:169-178 | the counters, the node found and the message are those of `CountSymbol` (see `UpdateTreeAdmitted`) |
| AdaptiveHuffmanCoder.AdaptiveHuffman.Admit | js/huffman.js:169-196 | the state, the message and the completion flag are those of `Admitted` |
| AdaptiveHuffmanCoder.AdaptiveHuffman.Update | js/huffman.js:167-196 | the state, the message and the completion flag are those of `UpdateTree` |
| AdaptiveHuffmanCoder.AdaptiveHuffman.RegisterSymbol | js/huffman.js:146-157 | the state and the message so far are those of `Register` |
| AdaptiveHuffmanCoder.AdaptiveHuffman.PreSwapSymbol | js/huffman.js:159-164 | the state becomes `PreSwap` of the old state (see `PreSwapMovesHolder`) |
| AdaptiveHuffmanCoder.AdaptiveHuffman.EncodeCharacter | js/huffman.js:137-197 | one call keeps the invariant; its state, message and completion flag are those of `EncodeStep` (see `EncodeFirstSymbol`, `EncodeNewSymbol`, `EncodeRepeatedSymbol`, `EncodeWhenFull`, `EncodeMonotone`) |

## Left out

- `log`, `encoder` and `Helpers.sendMessage` (js/huffman.js:41-69): these are DOM event I/O. The string handed to `encoder` is returned as `emitted`, and the log text is dropped.
- The `encode` and `getRoot` wrappers (js/huffman.js:300-319): `encode` only forwards to `encodeCharacter` and fires an event, and the root is node 0 of the store.
- `getCompressionRatio` (js/huffman.js:326-328): floating-point division and `toFixed(2)`. Only the two integer counters are kept.
- The `children` array built by `setChildren` (js/huffman.js:116-122): it duplicates `left` and `right` for the renderer. js/huffmanvis.js is not part of this model.
- Object identity: a node object is its index in the store. This is exact because the source never removes or reorders the array (lines 129, 248-249).
- HuffmanTree.Ascend: the loop at lines 184-193 is cut after `fuel` iterations. Termination of this loop is not proved, because swaps leave `parent` fields that disagree with the child links; `finished` is false when the cut happens.
- AdaptiveHuffmanCoder.AdaptiveHuffman.EncodeCharacter: takes the ascent's `fuel` as a parameter, and the same cut applies.
- HuffmanTree.FixW: the recursion of `fixWeights` is cut after `fuel` levels. From the root (line 196) with as many levels as there are nodes, `FixWFromRoot` proves that the cut never happens.
- HuffmanTree.Ascend: the model does not state that a finished ascent ends the same way with a larger bound. `CodeOfMoreFuel` states this for the code walk only.
- Global Huffman properties are not stated: the sibling property and optimal code lengths. Nor is agreement between `parent` fields and child links, because `swapNodes` does not keep it.
- HuffmanTree.BitLength: counts the binary digits of the character's Unicode scalar value. For a character outside the Basic Multilingual Plane, `charCodeAt(0)` reads the first UTF-16 code unit instead. A symbol is one `char`, not an arbitrary JavaScript string.
