/** Sorted-pair Merkle proofs: what `verify_proof` computes, and that it accepts exactly
    the nodes of the tree behind the published root, up to SHA-256 collisions. SHA-256
    itself is any function from bytes to digests. */
module Merkle {
  newtype byte = x: int | 0 <= x < 256
  type Digest = s: seq<byte> | |s| == 32 witness seq(32, _ => 0)
  type Hash = seq<byte> -> Digest

  /** Lexicographic order, as on `BytesN<32>`. */
  predicate Less(a: seq<byte>, b: seq<byte>) {
    if a == [] || b == [] then |a| < |b|
    else a[0] < b[0] || (a[0] == b[0] && Less(a[1..], b[1..]))
  }

  lemma {:induction false} LessIsTotal(a: seq<byte>, b: seq<byte>)
    ensures a == b || (Less(a, b) <==> !Less(b, a))
  {
    if a != [] && b != [] && a[0] == b[0] {
      LessIsTotal(a[1..], b[1..]);
      assert a == [a[0]] + a[1..] && b == [b[0]] + b[1..];
    }
  }

  /** The 64 bytes hashed for two siblings: the smaller one first. */
  function SortedPair(a: Digest, b: Digest): seq<byte> {
    if Less(a, b) then a + b else b + a
  }

  lemma SortedPairIsSymmetric(a: Digest, b: Digest)
    ensures SortedPair(a, b) == SortedPair(b, a)
  {
    LessIsTotal(a, b);
  }

  lemma SortedPairDetermines(a: Digest, b: Digest, c: Digest, d: Digest)
    requires SortedPair(a, b) == SortedPair(c, d)
    ensures (a == c && b == d) || (a == d && b == c)
  {
    assert forall x: Digest, y: Digest :: (x + y)[..32] == x && (x + y)[32..] == y;
  }

  /** The value reached from `leaf` by hashing with the siblings of `proof`, bottom up. */
  function Climb(sha256: Hash, leaf: Digest, proof: seq<Digest>): Digest {
    if proof == [] then leaf
    else sha256(SortedPair(Climb(sha256, leaf, proof[..|proof| - 1]), proof[|proof| - 1]))
  }

  predicate Accepts(sha256: Hash, leaf: Digest, proof: seq<Digest>, root: Digest) {
    Climb(sha256, leaf, proof) == root
  }

  method VerifyProof(sha256: Hash, leaf: Digest, proof: seq<Digest>, root: Digest) returns (ok: bool)
    ensures ok == Accepts(sha256, leaf, proof, root)
  {
    var computed: Digest := leaf;
    for i := 0 to |proof|
      invariant computed == Climb(sha256, leaf, proof[..i])
    {
      var sibling := proof[i];
      var left: Digest, right: Digest := sibling, computed;
      if Less(computed, sibling) {
        left, right := computed, sibling;
      }
      assert proof[..i + 1][..i] == proof[..i];
      computed := sha256(left + right);
    }
    assert proof[..|proof|] == proof;
    return computed == root;
  }

  // ---------- The order of the siblings, by value ----------

  function Power(n: nat): nat {
    if n == 0 then 1 else 256 * Power(n - 1)
  }

  /** The number that the bytes are in base 256, the first byte being the most significant. */
  function Value(s: seq<byte>): nat {
    if s == [] then 0 else s[0] as nat * Power(|s| - 1) + Value(s[1..])
  }

  lemma {:induction false} ValueIsBelow(s: seq<byte>)
    ensures Value(s) < Power(|s|)
  {
    if s != [] {
      ValueIsBelow(s[1..]);
      Leading(s[0] as nat, 256, Power(|s| - 1));
    }
  }

  lemma Leading(a: nat, b: nat, p: nat)
    requires a < b
    ensures a * p + p <= b * p
  {
    var d := b - a - 1;
    assert b * p == (a + 1 + d) * p == a * p + p + d * p;
    assert d * p >= 0;
  }

  /** The byte order on digests is the order of their values. */
  lemma {:induction false} LessIsByValue(a: seq<byte>, b: seq<byte>)
    requires |a| == |b|
    ensures Less(a, b) <==> Value(a) < Value(b)
    ensures a == b <==> Value(a) == Value(b)
    decreases |a|
  {
    if a != [] {
      LessIsByValue(a[1..], b[1..]);
      ValueIsBelow(a[1..]);
      ValueIsBelow(b[1..]);
      assert a == [a[0]] + a[1..] && b == [b[0]] + b[1..];
      if a[0] < b[0] {
        Leading(a[0] as nat, b[0] as nat, Power(|a| - 1));
      } else if b[0] < a[0] {
        Leading(b[0] as nat, a[0] as nat, Power(|a| - 1));
      } else {
        assert a == b <==> a[1..] == b[1..];
      }
    } else {
      assert a == b;
    }
  }

  /** A proof check defined by values: at every level the sibling of smaller value is hashed
      first. */
  function ClimbByValue(sha256: Hash, leaf: Digest, proof: seq<Digest>): Digest {
    if proof == [] then leaf
    else
      var below, sibling := ClimbByValue(sha256, leaf, proof[..|proof| - 1]), proof[|proof| - 1];
      sha256(if Value(below) <= Value(sibling) then below + sibling else sibling + below)
  }

  /** `verify_proof` accepts exactly the root that the check by values reaches. */
  lemma {:induction false} AcceptsByValue(sha256: Hash, leaf: Digest, proof: seq<Digest>, root: Digest)
    ensures Accepts(sha256, leaf, proof, root) <==> root == ClimbByValue(sha256, leaf, proof)
    decreases |proof|
  {
    if proof != [] {
      var front, sibling := proof[..|proof| - 1], proof[|proof| - 1];
      var below := Climb(sha256, leaf, front);
      AcceptsByValue(sha256, leaf, front, below);
      LessIsByValue(below, sibling);
    }
  }

  /** The smallest case, byte by byte: of two digests that agree below byte `k`, the one with
      the smaller byte `k` is hashed first, whichever of them is the leaf. */
  lemma TwoDigests(sha256: Hash, a: Digest, b: Digest, k: nat, root: Digest)
    requires k < 32 && a[..k] == b[..k] && a[k] < b[k]
    ensures Accepts(sha256, a, [b], root) <==> root == sha256(a + b)
    ensures Accepts(sha256, b, [a], root) <==> root == sha256(a + b)
  {
    FirstDifference(a, b, k);
    LessIsTotal(a, b);
    assert [a][..0] == [] && [b][..0] == [];
    assert Climb(sha256, a, [b]) == sha256(SortedPair(a, b));
    assert Climb(sha256, b, [a]) == sha256(SortedPair(b, a));
  }

  lemma {:induction false} FirstDifference(a: seq<byte>, b: seq<byte>, k: nat)
    requires k < |a| == |b| && a[..k] == b[..k] && a[k] < b[k]
    ensures Less(a, b)
    decreases k
  {
    if k > 0 {
      assert a[0] == a[..k][0] && b[0] == b[..k][0];
      assert a[1..][..k - 1] == a[..k][1..] && b[1..][..k - 1] == b[..k][1..];
      FirstDifference(a[1..], b[1..], k - 1);
    }
  }

  // ---------- Trees, independently of proofs ----------

  datatype Tree = Leaf(value: Digest) | Node(left: Tree, right: Tree)

  function RootOf(sha256: Hash, t: Tree): Digest {
    match t
    case Leaf(value) => value
    case Node(left, right) => sha256(SortedPair(RootOf(sha256, left), RootOf(sha256, right)))
  }

  /** A position in a tree, read from the bottom up: the last entry is the turn taken at
      the root, `true` for right. */
  type Path = seq<bool>

  function Turn(t: Tree, right: bool): Tree
    requires t.Node?
  {
    if right then t.right else t.left
  }

  predicate HasPath(t: Tree, path: Path) {
    path == [] || (t.Node? && HasPath(Turn(t, path[|path| - 1]), path[..|path| - 1]))
  }

  function SubtreeAt(t: Tree, path: Path): Tree
    requires HasPath(t, path)
  {
    if path == [] then t else SubtreeAt(Turn(t, path[|path| - 1]), path[..|path| - 1])
  }

  /** The roots of the subtrees beside the path, bottom up. */
  function Siblings(sha256: Hash, t: Tree, path: Path): seq<Digest>
    requires HasPath(t, path)
  {
    if path == [] then []
    else
      var right := path[|path| - 1];
      Siblings(sha256, Turn(t, right), path[..|path| - 1]) + [RootOf(sha256, Turn(t, !right))]
  }

  /** (value, proof) are the value and the sibling path of the node of `t` at `path`. */
  ghost predicate IsNodeAt(sha256: Hash, t: Tree, path: Path, value: Digest, proof: seq<Digest>) {
    && HasPath(t, path) && |path| == |proof|
    && value == RootOf(sha256, SubtreeAt(t, path))
    && proof == Siblings(sha256, t, path)
  }

  predicate AllPathsAtLeast(t: Tree, n: nat) {
    n == 0 || (t.Node? && AllPathsAtLeast(t.left, n - 1) && AllPathsAtLeast(t.right, n - 1))
  }

  /** Everything hashed to build `t`. */
  function TreeInputs(sha256: Hash, t: Tree): set<seq<byte>> {
    match t
    case Leaf(_) => {}
    case Node(left, right) =>
      TreeInputs(sha256, left) + TreeInputs(sha256, right)
      + {SortedPair(RootOf(sha256, left), RootOf(sha256, right))}
  }

  /** Everything hashed to check a proof. */
  function ProofInputs(sha256: Hash, leaf: Digest, proof: seq<Digest>): set<seq<byte>> {
    if proof == [] then {}
    else
      var front := proof[..|proof| - 1];
      ProofInputs(sha256, leaf, front) + {SortedPair(Climb(sha256, leaf, front), proof[|proof| - 1])}
  }

  /** No two different inputs, one hashed by the tree and one by the proof check, have the
      same hash. */
  ghost predicate NoCollision(sha256: Hash, t: Tree, leaf: Digest, proof: seq<Digest>) {
    forall x, y | x in TreeInputs(sha256, t) && y in ProofInputs(sha256, leaf, proof) ::
      sha256(x) == sha256(y) ==> x == y
  }

  /** Completeness: every node of every tree verifies with its sibling path. */
  lemma {:induction false} EveryNodeVerifies(sha256: Hash, t: Tree, path: Path)
    requires HasPath(t, path)
    ensures Accepts(sha256, RootOf(sha256, SubtreeAt(t, path)), Siblings(sha256, t, path), RootOf(sha256, t))
    ensures |Siblings(sha256, t, path)| == |path|
    decreases |path|
  {
    if path != [] {
      var right, below := path[|path| - 1], path[..|path| - 1];
      EveryNodeVerifies(sha256, Turn(t, right), below);
      var siblings := Siblings(sha256, t, path);
      assert siblings[..|siblings| - 1] == Siblings(sha256, Turn(t, right), below);
      SortedPairIsSymmetric(RootOf(sha256, t.left), RootOf(sha256, t.right));
    }
  }

  /** Soundness: an accepted value and proof belong to a node of the tree, or exhibit a
      collision of the hash. No assumption is made about the hash. */
  lemma {:induction false} AcceptedIsNodeOrCollision(sha256: Hash, t: Tree, leaf: Digest, proof: seq<Digest>)
    returns (path: Path, x: seq<byte>, y: seq<byte>)
    requires AllPathsAtLeast(t, |proof|)
    requires Accepts(sha256, leaf, proof, RootOf(sha256, t))
    ensures IsNodeAt(sha256, t, path, leaf, proof)
            || (x in TreeInputs(sha256, t) && y in ProofInputs(sha256, leaf, proof) && x != y && sha256(x) == sha256(y))
    decreases |proof|
  {
    path, x, y := [], [], [];
    if proof != [] {
      var front, top := proof[..|proof| - 1], proof[|proof| - 1];
      var l, r := RootOf(sha256, t.left), RootOf(sha256, t.right);
      var below := Climb(sha256, leaf, front);
      x, y := SortedPair(l, r), SortedPair(below, top);
      if x == y {
        SortedPairDetermines(l, r, below, top);
        var right := below != l || top != r;
        path, x, y := AcceptedIsNodeOrCollision(sha256, Turn(t, right), leaf, front);
        if IsNodeAt(sha256, Turn(t, right), path, leaf, front) {
          path := path + [right];
          assert path[..|path| - 1] + [right] == path;
          assert proof == front + [top];
        }
      }
    }
  }

  /** Against the root of a tree whose paths are all at least as long as the proof, and
      short of a collision, exactly the nodes at that depth are accepted, each with its own
      sibling path only. */
  lemma VerificationIsExact(sha256: Hash, t: Tree, leaf: Digest, proof: seq<Digest>)
    requires AllPathsAtLeast(t, |proof|) && NoCollision(sha256, t, leaf, proof)
    ensures Accepts(sha256, leaf, proof, RootOf(sha256, t)) <==> exists path :: IsNodeAt(sha256, t, path, leaf, proof)
  {
    if Accepts(sha256, leaf, proof, RootOf(sha256, t)) {
      var path, x, y := AcceptedIsNodeOrCollision(sha256, t, leaf, proof);
    }
    if path :| IsNodeAt(sha256, t, path, leaf, proof) {
      EveryNodeVerifies(sha256, t, path);
    }
  }

  // ---------- Perfect trees ----------

  predicate Perfect(t: Tree, depth: nat) {
    if depth == 0 then t.Leaf? else t.Node? && Perfect(t.left, depth - 1) && Perfect(t.right, depth - 1)
  }

  function Leaves(t: Tree): set<Digest> {
    match t
    case Leaf(value) => {value}
    case Node(left, right) => Leaves(left) + Leaves(right)
  }

  lemma {:induction false} PerfectPaths(t: Tree, depth: nat)
    requires Perfect(t, depth)
    ensures AllPathsAtLeast(t, depth)
    ensures forall path | HasPath(t, path) && |path| == depth ::
              SubtreeAt(t, path).Leaf? && SubtreeAt(t, path).value in Leaves(t)
    ensures forall v | v in Leaves(t) ::
              exists path :: HasPath(t, path) && |path| == depth && SubtreeAt(t, path) == Leaf(v)
  {
    if depth > 0 {
      PerfectPaths(t.left, depth - 1);
      PerfectPaths(t.right, depth - 1);
      forall v: Digest | v in Leaves(t)
        ensures exists path :: HasPath(t, path) && |path| == depth && SubtreeAt(t, path) == Leaf(v)
      {
        var right := v !in Leaves(t.left);
        assert v in Leaves(Turn(t, right));
        var below :| HasPath(Turn(t, right), below) && |below| == depth - 1
            && SubtreeAt(Turn(t, right), below) == Leaf(v);
        var path := below + [right];
        assert path[..|path| - 1] == below && path[|path| - 1] == right;
        assert HasPath(t, path) && SubtreeAt(t, path) == Leaf(v);
      }
    }
  }

  /** For a perfect tree and proofs as long as it is deep, acceptance is leaf membership:
      every leaf has an accepted proof, and only leaves have one that shows no collision. */
  lemma LeafMembership(sha256: Hash, t: Tree, depth: nat, leaf: Digest)
    requires Perfect(t, depth)
    ensures leaf in Leaves(t) ==>
              exists proof: seq<Digest> :: |proof| == depth && Accepts(sha256, leaf, proof, RootOf(sha256, t))
    ensures forall proof: seq<Digest> | |proof| == depth && Accepts(sha256, leaf, proof, RootOf(sha256, t))
                                        && NoCollision(sha256, t, leaf, proof) :: leaf in Leaves(t)
  {
    PerfectPaths(t, depth);
    if leaf in Leaves(t) {
      var path :| HasPath(t, path) && |path| == depth && SubtreeAt(t, path) == Leaf(leaf);
      EveryNodeVerifies(sha256, t, path);
      assert |Siblings(sha256, t, path)| == depth
          && Accepts(sha256, leaf, Siblings(sha256, t, path), RootOf(sha256, t));
    }
    forall proof: seq<Digest> | |proof| == depth && Accepts(sha256, leaf, proof, RootOf(sha256, t))
                                && NoCollision(sha256, t, leaf, proof)
      ensures leaf in Leaves(t)
    {
      VerificationIsExact(sha256, t, leaf, proof);
      var path :| IsNodeAt(sha256, t, path, leaf, proof);
    }
  }
}
