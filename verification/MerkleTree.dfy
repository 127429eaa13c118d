/** The validator Merkle tree: built by layers, verified by index bits. */
module MerkleTree {
  import opened Bytes
  import opened Seqs

  function Pow2(k: nat): (p: nat)
    ensures p >= 1
  {
    if k == 0 then 1 else 2 * Pow2(k - 1)
  }

  /** The height of the padded tree over n leaves: the least k with n <= 2^k. */
  function Depth(n: nat): nat {
    if n <= 1 then 0 else 1 + Depth((n + 1) / 2)
  }

  lemma {:induction false} DepthIsLeast(n: nat, k: nat)
    ensures Pow2(k) < n <==> k < Depth(n)
  {
    if n > 1 && k > 0 {
      DepthIsLeast((n + 1) / 2, k - 1);
    } else if n <= 1 {
      assert Pow2(k) >= 1;
    }
  }

  /** `nextPow2`. */
  method NextPow2(n: nat) returns (p: nat)
    ensures p == Pow2(Depth(n))
  {
    if n <= 1 {
      return 1;
    }
    p := 1;
    ghost var k := 0;
    while p < n
      invariant p == Pow2(k) && k <= Depth(n)
      decreases Depth(n) - k
    {
      DepthIsLeast(n, k);
      p, k := p * 2, k + 1;
    }
    DepthIsLeast(n, k);
  }

  /** `merkleLeaf`. */
  function Leaf(pubkey: Pubkey, blake: Hasher): Bytes32 {
    blake(pubkey)
  }

  function PairAt(layer: seq<Bytes32>, i: nat): (x: seq<byte>)
    requires i < |layer| / 2
    ensures |x| == 64
  {
    Joined(layer[2 * i], layer[2 * i + 1])
  }

  /** The 64 bytes `merkle_node` hashes. */
  function Joined(left: seq<byte>, right: seq<byte>): seq<byte> {
    left + right
  }

  function ParentAt(layer: seq<Bytes32>, i: nat, blake: Hasher): Bytes32
    requires i < |layer| / 2
  {
    blake(PairAt(layer, i))
  }

  /** Parents of a layer: the hash of each pair, left then right. */
  function Parents(layer: seq<Bytes32>, blake: Hasher): (next: seq<Bytes32>)
    ensures |next| == |layer| / 2
    ensures forall i :: 0 <= i < |next| ==> next[i] == ParentAt(layer, i, blake)
  {
    if |layer| < 2 then []
    else
      var rest := Parents(layer[2..], blake);
      assert forall i :: 0 < i <= |rest| ==> PairAt(layer, i) == PairAt(layer[2..], i - 1);
      [ParentAt(layer, 0, blake)] + rest
  }

  function Root(layer: seq<Bytes32>, k: nat, blake: Hasher): Bytes32
    requires |layer| == Pow2(k)
    decreases k
  {
    if k == 0 then layer[0] else Root(Parents(layer, blake), k - 1, blake)
  }

  /** The leaves, then zero leaves up to the next power of two. */
  function Padded(pubkeys: seq<Pubkey>, blake: Hasher): (layer: seq<Bytes32>)
    ensures |layer| == Pow2(Depth(|pubkeys|)) >= |pubkeys|
    ensures forall i :: 0 <= i < |pubkeys| ==> layer[i] == Leaf(pubkeys[i], blake)
    ensures forall i :: |pubkeys| <= i < |layer| ==> layer[i] == ZERO_32
  {
    DepthIsLeast(|pubkeys|, Depth(|pubkeys|));
    Leaves(pubkeys, blake) + Zeros(Pow2(Depth(|pubkeys|)) - |pubkeys|)
  }

  function Leaves(pubkeys: seq<Pubkey>, blake: Hasher): (layer: seq<Bytes32>)
    ensures |layer| == |pubkeys|
    ensures forall i :: 0 <= i < |pubkeys| ==> layer[i] == Leaf(pubkeys[i], blake)
  {
    if pubkeys == [] then [] else [Leaf(pubkeys[0], blake)] + Leaves(pubkeys[1..], blake)
  }

  function Zeros(n: nat): (layer: seq<Bytes32>)
    ensures |layer| == n
    ensures forall i :: 0 <= i < n ==> layer[i] == ZERO_32
  {
    if n == 0 then [] else [ZERO_32] + Zeros(n - 1)
  }

  function TreeRoot(pubkeys: seq<Pubkey>, blake: Hasher): Bytes32 {
    if pubkeys == [] then ZERO_32 else Root(Padded(pubkeys, blake), Depth(|pubkeys|), blake)
  }

  function Sibling(idx: nat): nat {
    if idx % 2 == 0 then idx + 1 else idx - 1
  }

  /** The sibling hashes on the way from a leaf to the root. */
  function Proof(layer: seq<Bytes32>, k: nat, idx: nat, blake: Hasher): (p: seq<Bytes32>)
    requires |layer| == Pow2(k) && idx < |layer|
    ensures |p| == k
    decreases k
  {
    if k == 0 then [] else [layer[Sibling(idx)]] + Proof(Parents(layer, blake), k - 1, idx / 2, blake)
  }

  function StepInput(current: Bytes32, sibling: Bytes32, idx: nat): (x: seq<byte>)
    ensures |x| == 64
  {
    if idx % 2 == 0 then Joined(current, sibling) else Joined(sibling, current)
  }

  /** What the verifying loop computes. */
  function Climb(current: Bytes32, proof: seq<Bytes32>, idx: nat, blake: Hasher): Bytes32
    decreases |proof|
  {
    if proof == [] then current
    else Climb(blake(StepInput(current, proof[0], idx)), proof[1..], idx / 2, blake)
  }

  predicate Verifies(root: Bytes32, pubkey: Pubkey, proof: seq<Bytes32>, leafIndex: nat, blake: Hasher) {
    Climb(blake(pubkey), proof, leafIndex, blake) == root
  }

  /** `buildLayer`. */
  method BuildLayer(pubkeys: seq<Pubkey>, blake: Hasher) returns (layer: seq<Bytes32>)
    ensures layer == Padded(pubkeys, blake)
  {
    var n := NextPow2(|pubkeys|);
    layer := Leaves(pubkeys, blake);
    DepthIsLeast(|pubkeys|, Depth(|pubkeys|));
    while |layer| < n
      invariant |pubkeys| <= |layer| <= n
      invariant layer == Padded(pubkeys, blake)[..|layer|]
    {
      layer := layer + [ZERO_32];
    }
  }

  /** One pass of the layer loops: push the parent of each pair. */
  method PushParents(layer: seq<Bytes32>, blake: Hasher) returns (next: seq<Bytes32>)
    requires |layer| % 2 == 0
    ensures next == Parents(layer, blake)
  {
    next := [];
    var i := 0;
    while i < |layer|
      invariant 0 <= i <= |layer| && i % 2 == 0
      invariant next == Parents(layer, blake)[..i / 2]
    {
      next := next + [blake(Joined(layer[i], layer[i + 1]))];
      i := i + 2;
    }
  }

  /** The root of one node is the node; of more, the root of their parents. */
  lemma RootStep(layer: seq<Bytes32>, k: nat, blake: Hasher)
    requires |layer| == Pow2(k)
    ensures |layer| == 1 ==> Root(layer, k, blake) == layer[0]
    ensures |layer| > 1 ==>
              k > 0 && |layer| % 2 == 0 && |Parents(layer, blake)| == Pow2(k - 1)
              && Root(layer, k, blake) == Root(Parents(layer, blake), k - 1, blake)
  {
  }

  /** `computeMerkleRoot`. */
  method ComputeMerkleRoot(pubkeys: seq<Pubkey>, blake: Hasher) returns (root: Bytes32)
    ensures root == TreeRoot(pubkeys, blake)
  {
    hide Padded, Depth, Parents, Pow2, Root;
    if |pubkeys| == 0 {
      return ZERO_32;
    }
    var layer := BuildLayer(pubkeys, blake);
    ghost var k := Depth(|pubkeys|);
    while |layer| > 1
      invariant |layer| == Pow2(k)
      invariant Root(layer, k, blake) == TreeRoot(pubkeys, blake)
      decreases k
    {
      RootStep(layer, k, blake);
      layer := PushParents(layer, blake);
      k := k - 1;
    }
    RootStep(layer, k, blake);
    return layer[0];
  }

  /** `computeMerkleProof`: the first position of the key and its sibling path; None when absent. */
  method ComputeMerkleProof(pubkeys: seq<Pubkey>, pubkey: Pubkey, blake: Hasher)
    returns (r: Option<(seq<Bytes32>, nat)>)
    ensures r.None? <==> pubkey !in pubkeys
    ensures r.Some? ==>
              var (proof, leafIndex) := r.value;
              leafIndex < |pubkeys| && pubkeys[leafIndex] == pubkey && pubkey !in pubkeys[..leafIndex]
              && proof == Proof(Padded(pubkeys, blake), Depth(|pubkeys|), leafIndex, blake)
  {
    var leafIndex := 0;
    while leafIndex < |pubkeys| && pubkeys[leafIndex] != pubkey
      invariant leafIndex <= |pubkeys| && pubkey !in pubkeys[..leafIndex]
    {
      leafIndex := leafIndex + 1;
    }
    if leafIndex == |pubkeys| {
      return None;
    }
    var proof := CollectSiblings(pubkeys, leafIndex, blake);
    return Some((proof, leafIndex));
  }

  /** The path from one layer begins with the sibling there; from a single node it is empty. */
  lemma ProofStep(layer: seq<Bytes32>, k: nat, idx: nat, blake: Hasher)
    requires |layer| == Pow2(k) && idx < |layer|
    ensures |layer| > 1 <==> k > 0
    ensures k == 0 ==> Proof(layer, k, idx, blake) == []
    ensures k > 0 ==>
              |layer| % 2 == 0 && Sibling(idx) < |layer| && |layer| / 2 == Pow2(k - 1) && idx / 2 < |layer| / 2
              && Proof(layer, k, idx, blake)
                 == [layer[Sibling(idx)]] + Proof(Parents(layer, blake), k - 1, idx / 2, blake)
  {
    hide Parents;
  }

  /** The loop of `computeMerkleProof` that rises through the layers. */
  method CollectSiblings(pubkeys: seq<Pubkey>, leafIndex: nat, blake: Hasher) returns (proof: seq<Bytes32>)
    requires leafIndex < |pubkeys|
    ensures proof == Proof(Padded(pubkeys, blake), Depth(|pubkeys|), leafIndex, blake)
  {
    hide Parents, Depth, Proof, Pow2, Padded;
    var layer := BuildLayer(pubkeys, blake);
    ghost var k := Depth(|pubkeys|);
    ghost var whole := Proof(layer, k, leafIndex, blake);
    proof := [];
    var idx: nat := leafIndex;
    ProofStep(layer, k, idx, blake);
    Nil(whole);
    while |layer| > 1
      invariant |layer| == Pow2(k) && idx < |layer|
      invariant whole == proof + Proof(layer, k, idx, blake)
      decreases k
    {
      ProofStep(layer, k, idx, blake);
      var siblingIdx := if idx % 2 == 0 then idx + 1 else idx - 1;
      Assoc(proof, [layer[siblingIdx]], Proof(Parents(layer, blake), k - 1, idx / 2, blake));
      proof := proof + [layer[siblingIdx]];
      layer := PushParents(layer, blake);
      idx := idx / 2;
      k := k - 1;
    }
    ProofStep(layer, k, idx, blake);
    Nil(proof);
  }

  /** `verify_merkle_proof` of governance-lock, and `verifyMerkleProof` of the CLI. */
  method VerifyMerkleProof(root: Bytes32, pubkey: Pubkey, proof: seq<Bytes32>, leafIndex: u32, blake: Hasher)
    returns (ok: bool)
    ensures ok == Verifies(root, pubkey, proof, leafIndex, blake)
  {
    var current: Bytes32 := blake(pubkey);
    var idx: nat := leafIndex;
    for i := 0 to |proof|
      invariant Climb(blake(pubkey), proof, leafIndex, blake) == Climb(current, proof[i..], idx, blake)
    {
      var sibling := proof[i];
      assert proof[i..][0] == sibling && proof[i..][1..] == proof[i + 1..];
      current := if idx % 2 == 0 then blake(Joined(current, sibling)) else blake(Joined(sibling, current));
      idx := idx / 2;
    }
    return current == root;
  }

  // ---- completeness ----

  lemma {:induction false} ClimbReachesRoot(layer: seq<Bytes32>, k: nat, idx: nat, blake: Hasher)
    requires |layer| == Pow2(k) && idx < |layer|
    ensures Climb(layer[idx], Proof(layer, k, idx, blake), idx, blake) == Root(layer, k, blake)
    decreases k
  {
    hide Parents, TreeInputs, ProofInputs;
    if k > 0 {
      var proof := Proof(layer, k, idx, blake);
      var next := Parents(layer, blake);
      ConsTail(layer[Sibling(idx)], Proof(next, k - 1, idx / 2, blake));
      StepDown(layer, k, layer[idx], proof, idx, blake);
      assert StepInput(layer[idx], proof[0], idx) == PairAt(layer, idx / 2);
      ClimbReachesRoot(next, k - 1, idx / 2, blake);
    }
  }

  /** The path of every listed validator verifies against the root. */
  lemma Complete(pubkeys: seq<Pubkey>, i: nat, blake: Hasher)
    requires i < |pubkeys|
    ensures Verifies(TreeRoot(pubkeys, blake), pubkeys[i], Proof(Padded(pubkeys, blake), Depth(|pubkeys|), i, blake),
            i, blake)
  {
    ClimbReachesRoot(Padded(pubkeys, blake), Depth(|pubkeys|), i, blake);
  }

  // ---- soundness ----

  /** No two of these strings collide, and none of them hashes to the zero leaf. */
  ghost predicate CollisionFree(blake: Hasher, inputs: set<seq<byte>>) {
    && (forall x, y :: x in inputs && y in inputs && blake(x) == blake(y) ==> x == y)
    && (forall x :: x in inputs ==> blake(x) != ZERO_32)
  }

  lemma NoClash(blake: Hasher, inputs: set<seq<byte>>, x: seq<byte>, y: seq<byte>)
    requires CollisionFree(blake, inputs) && x in inputs && y in inputs && blake(x) == blake(y)
    ensures x == y
  {
  }

  lemma NotZero(blake: Hasher, inputs: set<seq<byte>>, x: seq<byte>)
    requires CollisionFree(blake, inputs) && x in inputs
    ensures blake(x) != ZERO_32
  {
  }

  /** Every string hashed while a layer is folded to its root. */
  ghost function TreeInputs(layer: seq<Bytes32>, k: nat, blake: Hasher): set<seq<byte>>
    requires |layer| == Pow2(k)
    decreases k
  {
    if k == 0 then {}
    else (set i: nat | i < |layer| / 2 :: PairAt(layer, i)) + TreeInputs(Parents(layer, blake), k - 1, blake)
  }

  /** Every string hashed while a proof is checked. */
  ghost function ProofInputs(current: Bytes32, proof: seq<Bytes32>, idx: nat, blake: Hasher): set<seq<byte>>
    decreases |proof|
  {
    if proof == [] then {}
    else
      var x := StepInput(current, proof[0], idx);
      {x} + ProofInputs(blake(x), proof[1..], idx / 2, blake)
  }

  /** The leaf position the loop reads off an index: its k low bits. */
  function Position(idx: nat, k: nat): (p: nat)
    ensures p < Pow2(k)
  {
    if k == 0 then 0 else 2 * Position(idx / 2, k - 1) + idx % 2
  }

  function Shifted(idx: nat, k: nat): nat {
    if k == 0 then idx else Shifted(idx / 2, k - 1)
  }

  lemma {:induction false} ShiftAndPosition(idx: nat, k: nat)
    ensures idx == Pow2(k) * Shifted(idx, k) + Position(idx, k)
  {
    if k > 0 {
      ShiftAndPosition(idx / 2, k - 1);
      Regroup(Pow2(k - 1), Shifted(idx, k), Position(idx / 2, k - 1), idx);
    }
  }

  lemma Regroup(m: nat, q: nat, r: nat, idx: nat)
    requires idx / 2 == m * q + r
    ensures idx == (2 * m) * q + (2 * r + idx % 2)
  {
    assert (2 * m) * q == 2 * (m * q);
  }

  /** The k low bits are the remainder modulo 2^k. */
  lemma PositionIsRemainder(idx: nat, k: nat)
    ensures Position(idx, k) == idx % Pow2(k)
  {
    ShiftAndPosition(idx, k);
    hide Pow2, Position, Shifted;
    var q, r := Divide(idx, Pow2(k));
    UniqueRemainder(Pow2(k), Shifted(idx, k), Position(idx, k), q, r);
  }

  lemma Divide(n: nat, m: nat) returns (q: nat, r: nat)
    requires m >= 1
    ensures r == n % m && r < m && n == m * q + r
  {
    q, r := n / m, n % m;
  }

  lemma UniqueRemainder(m: nat, q: nat, r: nat, q': nat, r': nat)
    requires r < m && r' < m && m * q + r == m * q' + r'
    ensures r == r'
  {
    if q < q' {
      NextMultiple(m, q, q');
    } else if q' < q {
      NextMultiple(m, q', q);
    }
  }

  lemma {:induction false} NextMultiple(m: nat, q: nat, q': nat)
    requires q < q'
    ensures m * q + m <= m * q'
    decreases q'
  {
    if q + 1 < q' {
      NextMultiple(m, q, q' - 1);
    }
    assert m * q' == m * (q' - 1) + m;
  }

  lemma SameHalves(a: Bytes32, b: Bytes32, c: Bytes32, d: Bytes32)
    requires Joined(a, b) == Joined(c, d)
    ensures a == c && b == d
  {
    CancelFirst<byte>(a, b, c, d);
  }

  /** A path as long as the tree is high can only have started at the indexed leaf. */
  lemma {:induction false} PathStartsAtLeaf(
      layer: seq<Bytes32>, k: nat, current: Bytes32, proof: seq<Bytes32>, idx: nat, blake: Hasher, s: set<seq<byte>>)
    requires |layer| == Pow2(k) && |proof| == k
    requires Climb(current, proof, idx, blake) == Root(layer, k, blake)
    requires CollisionFree(blake, s)
    requires TreeInputs(layer, k, blake) <= s && ProofInputs(current, proof, idx, blake) <= s
    ensures current == layer[Position(idx, k)]
    decreases k
  {
    hide Parents, CollisionFree, Root, Climb, TreeInputs, ProofInputs, StepInput, PairAt;
    if k > 0 {
      var next := Parents(layer, blake);
      var x := StepInput(current, proof[0], idx);
      StepDown(layer, k, current, proof, idx, blake);
      PathStartsAtLeaf(next, k - 1, blake(x), proof[1..], idx / 2, blake, s);
      var j := Position(idx / 2, k - 1);
      var y := PairAt(layer, j);
      NoClash(blake, s, x, y);
      StepMatchesPair(current, proof[0], idx, layer, j);
    } else {
      RootOfLeaf(layer, blake);
      ClimbNothing(current, idx, blake);
    }
  }

  lemma StepMatchesPair(current: Bytes32, sibling: Bytes32, idx: nat, layer: seq<Bytes32>, j: nat)
    requires j < |layer| / 2 && StepInput(current, sibling, idx) == PairAt(layer, j)
    ensures current == layer[2 * j + idx % 2]
  {
    if idx % 2 == 0 {
      SameHalves(current, sibling, layer[2 * j], layer[2 * j + 1]);
    } else {
      SameHalves(sibling, current, layer[2 * j], layer[2 * j + 1]);
    }
  }

  lemma RootOfLeaf(layer: seq<Bytes32>, blake: Hasher)
    requires |layer| == 1
    ensures Root(layer, 0, blake) == layer[0]
  {
  }

  lemma ClimbNothing(current: Bytes32, idx: nat, blake: Hasher)
    ensures Climb(current, [], idx, blake) == current
  {
  }

  /** One level of the tree and one step of the loop. */
  lemma StepDown(layer: seq<Bytes32>, k: nat, current: Bytes32, proof: seq<Bytes32>, idx: nat, blake: Hasher)
    requires |layer| == Pow2(k) && k > 0
    ensures Root(layer, k, blake) == Root(Parents(layer, blake), k - 1, blake)
    ensures TreeInputs(Parents(layer, blake), k - 1, blake) <= TreeInputs(layer, k, blake)
    ensures forall j: nat :: j < |layer| / 2 ==> PairAt(layer, j) in TreeInputs(layer, k, blake)
    ensures proof != [] ==>
              var x := StepInput(current, proof[0], idx);
              x in ProofInputs(current, proof, idx, blake)
              && ProofInputs(blake(x), proof[1..], idx / 2, blake) <= ProofInputs(current, proof, idx, blake)
              && Climb(current, proof, idx, blake) == Climb(blake(x), proof[1..], idx / 2, blake)
  {
    hide Joined, Parents, PairAt;
  }

  /** A longer path passes through a leaf position with the hash of 64 bytes. */
  lemma {:induction false} LongerPath(
      layer: seq<Bytes32>, k: nat, current: Bytes32, proof: seq<Bytes32>, idx: nat, blake: Hasher, s: set<seq<byte>>)
    returns (i: nat, x: seq<byte>)
    requires |layer| == Pow2(k) && |proof| > k
    requires Climb(current, proof, idx, blake) == Root(layer, k, blake)
    requires CollisionFree(blake, s)
    requires TreeInputs(layer, k, blake) <= s && ProofInputs(current, proof, idx, blake) <= s
    ensures i < |layer| && x in s && |x| == 64 && layer[i] == blake(x)
    decreases |proof|
  {
    x := StepInput(current, proof[0], idx);
    assert x in ProofInputs(current, proof, idx, blake);
    if |proof| == k + 1 {
      PathStartsAtLeaf(layer, k, blake(x), proof[1..], idx / 2, blake, s);
      i := Position(idx / 2, k);
    } else {
      i, x := LongerPath(layer, k, blake(x), proof[1..], idx / 2, blake, s);
    }
  }

  /** A shorter path starts at an inner node, the hash of 64 bytes. */
  lemma {:induction false} ShorterPath(
      layer: seq<Bytes32>, k: nat, current: Bytes32, proof: seq<Bytes32>, idx: nat, blake: Hasher, s: set<seq<byte>>)
    returns (x: seq<byte>)
    requires |layer| == Pow2(k) && |proof| < k
    requires Climb(current, proof, idx, blake) == Root(layer, k, blake)
    requires CollisionFree(blake, s)
    requires TreeInputs(layer, k, blake) <= s && ProofInputs(current, proof, idx, blake) <= s
    ensures x in s && |x| == 64 && current == blake(x)
    decreases k
  {
    hide CollisionFree, Climb, Root, TreeInputs, ProofInputs, Position;
    StepDown(layer, k, current, proof, idx, blake);
    var next := Parents(layer, blake);
    if |proof| == k - 1 {
      PathStartsAtLeaf(next, k - 1, current, proof, idx, blake, s);
      x := PairAt(layer, Position(idx, k - 1));
    } else {
      x := ShorterPath(next, k - 1, current, proof, idx, blake, s);
    }
  }

  ghost function Keys(pubkeys: seq<Pubkey>): set<seq<byte>> {
    if pubkeys == [] then {} else {pubkeys[0]} + Keys(pubkeys[1..])
  }

  lemma {:induction false} KeyListed(pubkeys: seq<Pubkey>, i: nat)
    requires i < |pubkeys|
    ensures pubkeys[i] in Keys(pubkeys)
  {
    if i > 0 {
      KeyListed(pubkeys[1..], i - 1);
    }
  }

  /** All the strings that building this tree and checking this proof hash. */
  ghost function AllInputs(pubkeys: seq<Pubkey>, pubkey: Pubkey, proof: seq<Bytes32>, leafIndex: nat,
      blake: Hasher): set<seq<byte>> {
    Keys(pubkeys) + {pubkey}
    + TreeInputs(Padded(pubkeys, blake), Depth(|pubkeys|), blake)
    + ProofInputs(blake(pubkey), proof, leafIndex, blake)
  }

  /** What the three cases below need of the tree, the input set and the check. */
  lemma TreeBasics(pubkeys: seq<Pubkey>, pubkey: Pubkey, proof: seq<Bytes32>, leafIndex: nat, blake: Hasher)
    requires pubkeys != []
    ensures TreeRoot(pubkeys, blake) == Root(Padded(pubkeys, blake), Depth(|pubkeys|), blake)
    ensures var s := AllInputs(pubkeys, pubkey, proof, leafIndex, blake);
            pubkey in s && (forall i :: 0 <= i < |pubkeys| ==> pubkeys[i] in s)
            && TreeInputs(Padded(pubkeys, blake), Depth(|pubkeys|), blake) <= s
            && ProofInputs(Leaf(pubkey, blake), proof, leafIndex, blake) <= s
  {
    hide Root, TreeInputs, ProofInputs, Depth, Padded;
    forall i | 0 <= i < |pubkeys|
      ensures pubkeys[i] in Keys(pubkeys)
    {
      KeyListed(pubkeys, i);
    }
  }

  lemma NotLonger(pubkeys: seq<Pubkey>, pubkey: Pubkey, proof: seq<Bytes32>, leafIndex: nat, blake: Hasher)
    requires pubkeys != [] && Verifies(TreeRoot(pubkeys, blake), pubkey, proof, leafIndex, blake)
    requires CollisionFree(blake, AllInputs(pubkeys, pubkey, proof, leafIndex, blake))
    ensures |proof| <= Depth(|pubkeys|)
  {
    hide Root, Climb, TreeInputs, ProofInputs, Depth, Keys, Padded, AllInputs, CollisionFree;
    TreeBasics(pubkeys, pubkey, proof, leafIndex, blake);
    var layer, k := Padded(pubkeys, blake), Depth(|pubkeys|);
    var s := AllInputs(pubkeys, pubkey, proof, leafIndex, blake);
    if |proof| > k {
      var j, x := LongerPath(layer, k, Leaf(pubkey, blake), proof, leafIndex, blake, s);
      NotZero(blake, s, x);
      NoClash(blake, s, x, pubkeys[j]);
      assert false;
    }
  }

  lemma NotShorter(pubkeys: seq<Pubkey>, pubkey: Pubkey, proof: seq<Bytes32>, leafIndex: nat, blake: Hasher)
    requires pubkeys != [] && Verifies(TreeRoot(pubkeys, blake), pubkey, proof, leafIndex, blake)
    requires CollisionFree(blake, AllInputs(pubkeys, pubkey, proof, leafIndex, blake))
    ensures |proof| >= Depth(|pubkeys|)
  {
    hide Root, Climb, TreeInputs, ProofInputs, Depth, Keys, Padded, AllInputs, CollisionFree;
    TreeBasics(pubkeys, pubkey, proof, leafIndex, blake);
    var layer, k := Padded(pubkeys, blake), Depth(|pubkeys|);
    var s := AllInputs(pubkeys, pubkey, proof, leafIndex, blake);
    if |proof| < k {
      var x := ShorterPath(layer, k, Leaf(pubkey, blake), proof, leafIndex, blake, s);
      NoClash(blake, s, x, pubkey);
      assert false;
    }
  }

  /**
   * Any proof of any length that verifies has the length of the tree's height, and its key is the listed
   * key at the leaf index modulo the padded size.
   */
  lemma Sound(pubkeys: seq<Pubkey>, pubkey: Pubkey, proof: seq<Bytes32>, leafIndex: nat, blake: Hasher)
    requires pubkeys != [] && Verifies(TreeRoot(pubkeys, blake), pubkey, proof, leafIndex, blake)
    requires CollisionFree(blake, AllInputs(pubkeys, pubkey, proof, leafIndex, blake))
    ensures |proof| == Depth(|pubkeys|)
    ensures leafIndex % Pow2(Depth(|pubkeys|)) < |pubkeys|
    ensures pubkey == pubkeys[leafIndex % Pow2(Depth(|pubkeys|))]
  {
    hide Root, Climb, TreeInputs, ProofInputs, Depth, Position, Keys, Padded, AllInputs, CollisionFree;
    TreeBasics(pubkeys, pubkey, proof, leafIndex, blake);
    var layer, k := Padded(pubkeys, blake), Depth(|pubkeys|);
    var s := AllInputs(pubkeys, pubkey, proof, leafIndex, blake);
    NotLonger(pubkeys, pubkey, proof, leafIndex, blake);
    NotShorter(pubkeys, pubkey, proof, leafIndex, blake);
    PathStartsAtLeaf(layer, k, Leaf(pubkey, blake), proof, leafIndex, blake, s);
    var j := Position(leafIndex, k);
    NotZero(blake, s, pubkey);
    NoClash(blake, s, pubkey, pubkeys[j]);
    PositionIsRemainder(leafIndex, k);
  }
}
