/** The Merkle root over checkpoint components and what it commits to. */
module Merkle {
  import opened Prelude
  import opened Ordering
  import opened ByteStrings

  const LEAF_DOMAIN := "gpuforge/checkpoint/leaf/v1\0"
  const NODE_DOMAIN := "gpuforge/checkpoint/node/v1\0"
  const MAX_LEAVES := 65536

  datatype CheckpointLeaf = CheckpointLeaf(name: string, digest: string)

  predicate IsTensorChar(c: char) {
    'A' <= c <= 'Z' || 'a' <= c <= 'z' || '0' <= c <= '9'
    || c == '_' || c == '.' || c == ':' || c == '/' || c == '-'
  }

  /** Some segment between slashes is exactly two dots. */
  predicate HasParentSegment(s: string) {
    exists i :: 0 <= i <= |s| - 2 && s[i] == '.' && s[i + 1] == '.'
                && (i == 0 || s[i - 1] == '/') && (i + 2 == |s| || s[i + 2] == '/')
  }

  /** `_tensor_name` */
  predicate IsTensorName(s: string) {
    && 1 <= |s| <= 128
    && (forall i :: 0 <= i < |s| ==> IsTensorChar(s[i]))
    && s[0] != '_' && s[0] != '.' && s[0] != ':' && s[0] != '/' && s[0] != '-'
    && !HasParentSegment(s)
  }

  predicate ValidLeaf(leaf: CheckpointLeaf) {
    IsTensorName(leaf.name) && IsDigest(leaf.digest)
  }

  function LeafName(leaf: CheckpointLeaf): string {
    leaf.name
  }

  predicate LeafLe(a: CheckpointLeaf, b: CheckpointLeaf) {
    LexLe(a.name, b.name)
  }

  function LeafInput(leaf: CheckpointLeaf): Bytes
    requires ValidLeaf(leaf)
  {
    LEAF_DOMAIN + BigEndian(|leaf.name|, 2) + leaf.name + DigestBytes(leaf.digest)
  }

  function NodeInput(left: Bytes, right: Bytes): Bytes {
    NODE_DOMAIN + left + right
  }

  function LeafLevel(h: Sha256, leaves: seq<CheckpointLeaf>): (level: seq<Bytes>)
    requires forall leaf :: leaf in leaves ==> ValidLeaf(leaf)
    ensures |level| == |leaves|
    ensures forall i :: 0 <= i < |level| ==> level[i] == h(LeafInput(leaves[i]))
  {
    seq(|leaves|, i requires 0 <= i < |leaves| => h(LeafInput(leaves[i])))
  }

  /** A level of odd length is padded with a copy of its last element. */
  function Pad<T>(level: seq<T>): (padded: seq<T>)
    requires level != []
    ensures |padded| % 2 == 0 && |padded| / 2 == (|level| + 1) / 2 && level <= padded
  {
    if |level| % 2 == 1 then level + [level[|level| - 1]] else level
  }

  function Pairs(h: Sha256, level: seq<Bytes>): (next: seq<Bytes>)
    requires |level| % 2 == 0
    ensures |next| == |level| / 2
    ensures forall i :: 0 <= i < |next| ==> next[i] == h(NodeInput(level[2 * i], level[2 * i + 1]))
  {
    seq(|level| / 2, i requires 0 <= i < |level| / 2 => h(NodeInput(level[2 * i], level[2 * i + 1])))
  }

  function Root(h: Sha256, level: seq<Bytes>): Bytes
    requires level != []
    decreases |level|
  {
    if |level| == 1 then level[0] else Root(h, Pairs(h, Pad(level)))
  }

  /** `checkpoint_merkle_root`; `None` is the `INVALID` failure. */
  function MerkleRoot(h: Sha256, leaves: seq<CheckpointLeaf>): Option<string>
    requires forall leaf :: leaf in leaves ==> ValidLeaf(leaf)
  {
    if !(1 <= |leaves| <= MAX_LEAVES) || !AllDistinct(Map(LeafName, Sort(LeafLe, leaves))) then None
    else
      SortMultiset(LeafLe, leaves);
      var level := LeafLevel(h, Sort(LeafLe, leaves));
      RootLength(h, level);
      Some(DigestText(Root(h, level)))
  }

  lemma {:induction false} RootLength(h: Sha256, level: seq<Bytes>)
    requires level != [] && forall v :: v in level ==> |v| == DIGEST_BYTES && IsBytes(v)
    ensures |Root(h, level)| == DIGEST_BYTES && IsBytes(Root(h, level))
    decreases |level|
  {
    if |level| > 1 {
      RootLength(h, Pairs(h, Pad(level)));
    }
  }

  /** Pads and pairs the level until one hash is left. */
  method ComputeMerkleRoot(h: Sha256, leaves: seq<CheckpointLeaf>) returns (root: Option<string>)
    requires forall leaf :: leaf in leaves ==> ValidLeaf(leaf)
    ensures root == MerkleRoot(h, leaves)
  {
    if !(1 <= |leaves| <= MAX_LEAVES) {
      return None;
    }
    var ordered := Sort(LeafLe, leaves);
    SortMultiset(LeafLe, leaves);
    if !AllDistinct(Map(LeafName, ordered)) {
      return None;
    }
    var level := LeafLevel(h, ordered);
    RootLength(h, level);
    while |level| > 1
      invariant level != []
      invariant Root(h, level) == Root(h, LeafLevel(h, ordered))
      decreases |level|
    {
      var padded := level;
      if |level| % 2 == 1 {
        padded := padded + [level[|level| - 1]];
      }
      assert padded == Pad(level);
      level := Pairs(h, padded);
    }
    return Some(DigestText(level[0]));
  }

  // ---------- the tree behind a root ----------

  datatype Tree = Tip(leaf: CheckpointLeaf) | Fork(left: Tree, right: Tree)

  predicate ValidTree(t: Tree) {
    match t
    case Tip(leaf) => ValidLeaf(leaf)
    case Fork(left, right) => ValidTree(left) && ValidTree(right)
  }

  function TreeHash(h: Sha256, t: Tree): (v: Bytes)
    requires ValidTree(t)
    ensures |v| == DIGEST_BYTES
  {
    match t
    case Tip(leaf) => h(LeafInput(leaf))
    case Fork(left, right) => h(NodeInput(TreeHash(h, left), TreeHash(h, right)))
  }

  /** Everything that is hashed for a tree. */
  function TreeInputs(h: Sha256, t: Tree): set<Bytes>
    requires ValidTree(t)
  {
    match t
    case Tip(leaf) => {LeafInput(leaf)}
    case Fork(left, right) =>
      {NodeInput(TreeHash(h, left), TreeHash(h, right))} + TreeInputs(h, left) + TreeInputs(h, right)
  }

  function PairTrees(level: seq<Tree>): (next: seq<Tree>)
    requires |level| % 2 == 0
    ensures |next| == |level| / 2
    ensures forall i :: 0 <= i < |next| ==> next[i] == Fork(level[2 * i], level[2 * i + 1])
  {
    seq(|level| / 2, i requires 0 <= i < |level| / 2 => Fork(level[2 * i], level[2 * i + 1]))
  }

  function RootTree(level: seq<Tree>): Tree
    requires level != []
    decreases |level|
  {
    if |level| == 1 then level[0] else RootTree(PairTrees(Pad(level)))
  }

  ghost predicate ValidTrees(level: seq<Tree>) {
    forall i :: 0 <= i < |level| ==> ValidTree(level[i])
  }

  function Hashes(h: Sha256, level: seq<Tree>): (hashes: seq<Bytes>)
    requires ValidTrees(level)
    ensures |hashes| == |level|
    ensures forall i :: 0 <= i < |level| ==> hashes[i] == TreeHash(h, level[i])
  {
    seq(|level|, i requires 0 <= i < |level| => TreeHash(h, level[i]))
  }

  lemma PairsOfHashes(h: Sha256, level: seq<Tree>)
    requires level != [] && ValidTrees(level)
    ensures ValidTrees(PairTrees(Pad(level)))
    ensures Pairs(h, Pad(Hashes(h, level))) == Hashes(h, PairTrees(Pad(level)))
  {
    var padded := Pad(level);
    assert forall i :: 0 <= i < |padded| ==> ValidTree(padded[i]);
    assert Pad(Hashes(h, level)) == Hashes(h, padded);
  }

  /** The root that the levels compute is the hash of the root tree. */
  lemma {:induction false} RootIsTreeHash(h: Sha256, level: seq<Tree>)
    requires level != [] && ValidTrees(level)
    ensures ValidTree(RootTree(level)) && Root(h, Hashes(h, level)) == TreeHash(h, RootTree(level))
    decreases |level|
  {
    if |level| > 1 {
      PairsOfHashes(h, level);
      RootIsTreeHash(h, PairTrees(Pad(level)));
    }
  }

  function Tips(leaves: seq<CheckpointLeaf>): (level: seq<Tree>)
    ensures |level| == |leaves| && forall i :: 0 <= i < |level| ==> level[i] == Tip(leaves[i])
  {
    seq(|leaves|, i requires 0 <= i < |leaves| => Tip(leaves[i]))
  }

  lemma {:induction false} RootTreeValid(level: seq<Tree>)
    requires level != [] && ValidTrees(level)
    ensures ValidTree(RootTree(level))
    decreases |level|
  {
    if |level| > 1 {
      var padded := Pad(level);
      assert forall i :: 0 <= i < |padded| ==> ValidTree(padded[i]);
      RootTreeValid(PairTrees(padded));
    }
  }

  /** The tree whose hash is the root of `leaves`. */
  function LeafTree(leaves: seq<CheckpointLeaf>): (t: Tree)
    requires leaves != [] && forall leaf :: leaf in leaves ==> ValidLeaf(leaf)
    ensures ValidTree(t)
  {
    SortMultiset(LeafLe, leaves);
    RootTreeValid(Tips(Sort(LeafLe, leaves)));
    RootTree(Tips(Sort(LeafLe, leaves)))
  }

  /** Everything that is hashed to compute the root of `leaves`. */
  function HashedInputs(h: Sha256, leaves: seq<CheckpointLeaf>): set<Bytes>
    requires leaves != [] && forall leaf :: leaf in leaves ==> ValidLeaf(leaf)
  {
    TreeInputs(h, LeafTree(leaves))
  }

  // ---------- inputs determine what is hashed ----------

  lemma LeafInputInjective(a: CheckpointLeaf, b: CheckpointLeaf)
    requires ValidLeaf(a) && ValidLeaf(b) && LeafInput(a) == LeafInput(b)
    ensures a == b
  {
    var x, y := LeafInput(a), LeafInput(b);
    var d := |LEAF_DOMAIN| + 2;
    assert |x| == d + |a.name| + DIGEST_BYTES && |y| == d + |b.name| + DIGEST_BYTES;
    assert x[d..d + |a.name|] == a.name && y[d..d + |b.name|] == b.name;
    assert x[d + |a.name|..] == DigestBytes(a.digest) && y[d + |b.name|..] == DigestBytes(b.digest);
    DigestBytesInjective(a.digest, b.digest);
  }

  lemma NodeInputInjective(a: Bytes, b: Bytes, c: Bytes, d: Bytes)
    requires |a| == |c| && NodeInput(a, b) == NodeInput(c, d)
    ensures a == c && b == d
  {
    var x, y, n := NodeInput(a, b), NodeInput(c, d), |NODE_DOMAIN|;
    assert x[n..n + |a|] == a && y[n..n + |c|] == c;
    assert x[n + |a|..] == b && y[n + |c|..] == d;
  }

  /** The two domains differ, so a leaf is never mistaken for a node. */
  lemma LeafIsNotNode(leaf: CheckpointLeaf, a: Bytes, b: Bytes)
    requires ValidLeaf(leaf)
    ensures LeafInput(leaf) != NodeInput(a, b)
  {
    assert LeafInput(leaf)[20] == LEAF_DOMAIN[20] == 'l';
    assert NodeInput(a, b)[20] == NODE_DOMAIN[20] == 'n';
  }

  /** Unless the hash collides on the inputs hashed for them, trees with equal hashes are equal. */
  lemma {:induction false} TreeHashInjective(h: Sha256, inputs: set<Bytes>, t: Tree, u: Tree)
    requires ValidTree(t) && ValidTree(u) && CollisionFree(h, inputs)
    requires TreeInputs(h, t) <= inputs && TreeInputs(h, u) <= inputs
    requires TreeHash(h, t) == TreeHash(h, u)
    ensures t == u
    decreases t
  {
    match (t, u)
    case (Tip(a), Tip(b)) =>
      LeafInputInjective(a, b);
    case (Fork(a, b), Fork(c, d)) =>
      NodeInputInjective(TreeHash(h, a), TreeHash(h, b), TreeHash(h, c), TreeHash(h, d));
      TreeHashInjective(h, inputs, a, c);
      TreeHashInjective(h, inputs, b, d);
    case (Tip(a), Fork(c, d)) =>
      LeafIsNotNode(a, TreeHash(h, c), TreeHash(h, d));
    case (Fork(a, b), Tip(c)) =>
      LeafIsNotNode(c, TreeHash(h, a), TreeHash(h, b));
  }

  // ---------- a level is determined by its root tree ----------

  function LeftHeight(t: Tree): nat {
    if t.Tip? then 0 else 1 + LeftHeight(t.left)
  }

  ghost predicate LevelAt(level: seq<Tree>, k: nat) {
    forall i :: 0 <= i < |level| ==> LeftHeight(level[i]) == k
  }

  function Depth(n: nat): nat {
    if n <= 1 then 0 else 1 + Depth((n + 1) / 2)
  }

  lemma NextLevelAt(level: seq<Tree>, k: nat)
    requires |level| > 1 && LevelAt(level, k)
    ensures LevelAt(PairTrees(Pad(level)), k + 1)
  {
    var p := Pad(level);
    forall i | 0 <= i < |p| / 2 ensures LeftHeight(PairTrees(p)[i]) == k + 1 {
      assert p[2 * i] == level[2 * i];
    }
  }

  /** The height of the root tree gives away the number of levels. */
  lemma {:induction false} RootTreeHeight(level: seq<Tree>, k: nat)
    requires level != [] && LevelAt(level, k)
    ensures LeftHeight(RootTree(level)) == k + Depth(|level|)
    decreases |level|
  {
    if |level| > 1 {
      NextLevelAt(level, k);
      RootTreeHeight(PairTrees(Pad(level)), k + 1);
    }
  }

  lemma NextLevelDistinct(level: seq<Tree>)
    requires |level| > 1 && Distinct(level)
    ensures Distinct(PairTrees(Pad(level)))
  {
    var p := Pad(level);
    var next := PairTrees(p);
    forall i, j | 0 <= i < j < |next| ensures next[i] != next[j] {
      assert p[2 * i] == level[2 * i] && p[2 * j] == level[2 * j];
    }
  }

  /** Padding cannot make two duplicate-free levels of different lengths equal. */
  lemma PadInjective(a: seq<Tree>, b: seq<Tree>)
    requires a != [] && b != [] && Distinct(a) && Distinct(b) && Pad(a) == Pad(b)
    ensures a == b
  {
    var p, q := Pad(a), Pad(b);
    assert |a| % 2 == 1 ==> p[|p| - 1] == p[|p| - 2];
    assert |b| % 2 == 1 ==> q[|q| - 1] == q[|q| - 2];
    assert |a| % 2 == 0 ==> p[|p| - 1] != p[|p| - 2];
    assert |b| % 2 == 0 ==> q[|q| - 1] != q[|q| - 2];
    assert |a| == |b|;
    assert a == p[..|a|] && b == q[..|b|];
  }

  lemma PairsInjective(p: seq<Tree>, q: seq<Tree>)
    requires |p| % 2 == 0 && |q| % 2 == 0 && PairTrees(p) == PairTrees(q)
    ensures p == q
  {
    assert |PairTrees(p)| == |PairTrees(q)|;
    forall j | 0 <= j < |p| ensures p[j] == q[j] {
      assert PairTrees(p)[j / 2] == PairTrees(q)[j / 2];
      assert j == 2 * (j / 2) || j == 2 * (j / 2) + 1;
    }
  }

  /** Two duplicate-free levels of equal height with the same root tree are the same level. */
  lemma {:induction false} RootTreeDeterminesLevel(a: seq<Tree>, b: seq<Tree>, k: nat)
    requires a != [] && b != [] && Distinct(a) && Distinct(b)
    requires LevelAt(a, k) && LevelAt(b, k) && RootTree(a) == RootTree(b)
    ensures a == b
    decreases |a|
  {
    RootTreeHeight(a, k);
    RootTreeHeight(b, k);
    if |a| > 1 && |b| > 1 {
      NextLevelAt(a, k);
      NextLevelAt(b, k);
      NextLevelDistinct(a);
      NextLevelDistinct(b);
      RootTreeDeterminesLevel(PairTrees(Pad(a)), PairTrees(Pad(b)), k + 1);
      PairsInjective(Pad(a), Pad(b));
      PadInjective(a, b);
    }
  }

  // ---------- the commitment ----------

  lemma LeavesSeparate(leaves: seq<CheckpointLeaf>)
    requires Distinct(Map(LeafName, leaves))
    ensures Separates(LeafLe, leaves) && Distinct(leaves)
  {
    forall i, j | 0 <= i < j < |leaves| ensures leaves[i] != leaves[j] {
      assert Map(LeafName, leaves)[i] != Map(LeafName, leaves)[j];
    }
    forall x, y | x in leaves && y in leaves && LeafLe(x, y) && LeafLe(y, x) ensures x == y {
      LexAntisymmetric(x.name, y.name);
      var i :| 0 <= i < |leaves| && leaves[i] == x;
      var j :| 0 <= j < |leaves| && leaves[j] == y;
      assert Map(LeafName, leaves)[i] == Map(LeafName, leaves)[j];
    }
  }

  lemma LeafOrderTotal()
    ensures TotalPreorder(LeafLe)
  {
    LexTotalPreorder();
    assert forall a: CheckpointLeaf, b: CheckpointLeaf :: LeafLe(a, b) || LeafLe(b, a);
  }

  /** The order in which the components are listed does not matter. */
  lemma RootIgnoresOrder(h: Sha256, a: seq<CheckpointLeaf>, b: seq<CheckpointLeaf>)
    requires forall leaf :: leaf in a ==> ValidLeaf(leaf)
    requires multiset(a) == multiset(b)
    ensures forall leaf :: leaf in b ==> ValidLeaf(leaf)
    ensures MerkleRoot(h, a) == MerkleRoot(h, b)
  {
    SameElements(a, b);
    SortMultiset(LeafLe, a);
    SortMultiset(LeafLe, b);
    MapMultiset(LeafName, Sort(LeafLe, a), Sort(LeafLe, b));
    var x, y := Map(LeafName, Sort(LeafLe, a)), Map(LeafName, Sort(LeafLe, b));
    if Distinct(x) {
      DistinctPermutation(x, y);
      LeafOrderTotal();
      LeavesSeparate(Sort(LeafLe, a));
      SortCanonical(LeafLe, a, b);
    } else if Distinct(y) {
      DistinctPermutation(y, x);
    }
  }

  /** There is no root exactly when there are too few or too many components, or two of one name. */
  lemma RootRefusedExact(h: Sha256, leaves: seq<CheckpointLeaf>)
    requires forall leaf :: leaf in leaves ==> ValidLeaf(leaf)
    ensures MerkleRoot(h, leaves).None? <==>
              || leaves == [] || |leaves| > 65536
              || exists i, j :: 0 <= i < j < |leaves| && leaves[i].name == leaves[j].name
  {
    SortMultiset(LeafLe, leaves);
    MapMultiset(LeafName, Sort(LeafLe, leaves), leaves);
    var x, y := Map(LeafName, Sort(LeafLe, leaves)), Map(LeafName, leaves);
    if Distinct(x) {
      DistinctPermutation(x, y);
    } else if Distinct(y) {
      DistinctPermutation(y, x);
    }
    assert forall i :: 0 <= i < |leaves| ==> y[i] == leaves[i].name;
  }

  lemma TipsValid(leaves: seq<CheckpointLeaf>)
    requires forall leaf :: leaf in leaves ==> ValidLeaf(leaf)
    ensures ValidTrees(Tips(leaves))
  {
    forall i | 0 <= i < |leaves| ensures ValidTree(Tips(leaves)[i]) {
      assert leaves[i] in leaves;
    }
  }

  lemma RootOfTips(h: Sha256, leaves: seq<CheckpointLeaf>)
    requires leaves != [] && forall leaf :: leaf in leaves ==> ValidLeaf(leaf)
    ensures ValidTrees(Tips(leaves)) && ValidTree(RootTree(Tips(leaves)))
    ensures Root(h, LeafLevel(h, leaves)) == TreeHash(h, RootTree(Tips(leaves)))
  {
    TipsValid(leaves);
    RootTreeValid(Tips(leaves));
    assert LeafLevel(h, leaves) == Hashes(h, Tips(leaves));
    RootIsTreeHash(h, Tips(leaves));
  }

  /** The root is the hash of the leaf tree. */
  lemma RootOfLeafTree(h: Sha256, leaves: seq<CheckpointLeaf>)
    requires forall leaf :: leaf in leaves ==> ValidLeaf(leaf)
    requires MerkleRoot(h, leaves).Some?
    ensures IsBytes(TreeHash(h, LeafTree(leaves)))
    ensures MerkleRoot(h, leaves) == Some(DigestText(TreeHash(h, LeafTree(leaves))))
  {
    SortMultiset(LeafLe, leaves);
    RootOfTips(h, Sort(LeafLe, leaves));
    RootLength(h, LeafLevel(h, Sort(LeafLe, leaves)));
  }

  lemma DistinctTips(leaves: seq<CheckpointLeaf>)
    requires Distinct(leaves)
    ensures Distinct(Tips(leaves)) && LevelAt(Tips(leaves), 0)
  {
  }

  lemma TipsInjective(x: seq<CheckpointLeaf>, y: seq<CheckpointLeaf>)
    requires Tips(x) == Tips(y)
    ensures x == y
  {
    assert |x| == |Tips(x)| == |Tips(y)| == |y|;
    forall i | 0 <= i < |x| ensures x[i] == y[i] {
      assert Tips(x)[i] == Tips(y)[i];
    }
  }

  lemma LeafTreeInjective(a: seq<CheckpointLeaf>, b: seq<CheckpointLeaf>)
    requires a != [] && forall leaf :: leaf in a ==> ValidLeaf(leaf)
    requires b != [] && forall leaf :: leaf in b ==> ValidLeaf(leaf)
    requires Distinct(Map(LeafName, Sort(LeafLe, a))) && Distinct(Map(LeafName, Sort(LeafLe, b)))
    requires LeafTree(a) == LeafTree(b)
    ensures multiset(a) == multiset(b)
  {
    SortMultiset(LeafLe, a);
    SortMultiset(LeafLe, b);
    var x, y := Sort(LeafLe, a), Sort(LeafLe, b);
    LeavesSeparate(x);
    LeavesSeparate(y);
    DistinctTips(x);
    DistinctTips(y);
    RootTreeDeterminesLevel(Tips(x), Tips(y), 0);
    TipsInjective(x, y);
  }

  /**
   Unless the hash collides on some of the inputs hashed for them, two lists of components have the
   same root exactly when they are permutations of each other, whatever their lengths.
   */
  lemma RootExact(h: Sha256, a: seq<CheckpointLeaf>, b: seq<CheckpointLeaf>)
    requires forall leaf :: leaf in a ==> ValidLeaf(leaf)
    requires forall leaf :: leaf in b ==> ValidLeaf(leaf)
    requires MerkleRoot(h, a).Some? && MerkleRoot(h, b).Some?
    requires CollisionFree(h, HashedInputs(h, a) + HashedInputs(h, b))
    ensures MerkleRoot(h, a) == MerkleRoot(h, b) <==> multiset(a) == multiset(b)
  {
    RootOfLeafTree(h, a);
    RootOfLeafTree(h, b);
    if multiset(a) == multiset(b) {
      RootIgnoresOrder(h, a, b);
    }
    if MerkleRoot(h, a) == MerkleRoot(h, b) {
      var t, u := LeafTree(a), LeafTree(b);
      DigestTextInjective(TreeHash(h, t), TreeHash(h, u));
      TreeHashInjective(h, TreeInputs(h, t) + TreeInputs(h, u), t, u);
      LeafTreeInjective(a, b);
    }
  }
}
