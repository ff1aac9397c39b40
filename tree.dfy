/**
 * `Huffman::Methods::BuildHuffmanTree` and `GenerateCodes`: the code tree
 * built from a frequency map, and the code of each symbol as its path from
 * the root ('0' = left, '1' = right).
 */
module HuffmanTree {
  import opened Types
  import opened BitPack

  /** `Huffman::FreqMap`: `std::map<char, std::int32_t>`. */
  type FreqMap = map<Char, Int32>

  /**
   * A `HuffmanNode`. A leaf has no children; an inner node has both, and its
   * `data` is `'\0'`, which nothing reads, so it is not kept. Frequencies of
   * inner nodes are sums and are not bounded to 32 bits here.
   */
  datatype Tree = Leaf(sym: Char, freq: int) | Node(freq: int, left: Tree, right: Tree)

  /** `HuffmanCompare`: `a` sorts below `b` in the priority queue when its frequency is larger. */
  predicate HuffmanCompare(a: Tree, b: Tree) {
    a.freq > b.freq
  }

  /**
   * `HuffmanCompare` is a strict weak ordering, as `std::priority_queue`
   * demands of its comparator: irreflexive, transitive, and nodes of equal
   * frequency are interchangeable.
   */
  lemma CompareStrictWeakOrder(a: Tree, b: Tree, c: Tree)
    ensures !HuffmanCompare(a, a)
    ensures HuffmanCompare(a, b) && HuffmanCompare(b, c) ==> HuffmanCompare(a, c)
    ensures !HuffmanCompare(a, b) && !HuffmanCompare(b, a) ==>
      (HuffmanCompare(a, c) <==> HuffmanCompare(b, c)) && (HuffmanCompare(c, a) <==> HuffmanCompare(c, b))
  {
  }

  // ---------------------------------------------------------------------
  // Map order

  /** A least element of a non-empty set of chars, found by taking out any element and comparing. */
  ghost function MinOf(s: set<Char>): (c: Char)
    requires s != {}
    ensures c in s && forall d :: d in s ==> c <= d
    decreases |s|
  {
    var x :| x in s;
    if s == {x} then x
    else
      var rest := s - {x};
      var y := MinOf(rest);
      assert forall d :: d in s ==> d == x || d in rest;
      if x < y then x else y
  }

  /** The least element of a non-empty set of chars. */
  function Least(s: set<Char>): (c: Char)
    requires s != {}
    ensures c in s && forall d :: d in s ==> c <= d
  {
    assert MinOf(s) in s;
    var c :| c in s && forall d :: d in s ==> c <= d;
    c
  }

  /** The elements of `s`, least first; `AscendingSorted` states the order. */
  function Ascending(s: set<Char>): (keys: seq<Char>)
    ensures |keys| == |s|
    ensures forall c :: c in keys <==> c in s
    decreases |s|
  {
    if s == {} then []
    else
      var c := Least(s);
      var rest := Ascending(s - {c});
      var keys := [c] + rest;
      assert forall d :: d in keys <==> d == c || d in rest;
      keys
  }

  lemma {:induction false} AscendingSorted(s: set<Char>)
    ensures forall i, j :: 0 <= i < j < |Ascending(s)| ==> Ascending(s)[i] < Ascending(s)[j]
    decreases |s|
  {
    if s != {} {
      var c := Least(s);
      var rest := Ascending(s - {c});
      AscendingSorted(s - {c});
      var keys := Ascending(s);
      assert keys == [c] + rest;
      forall i, j | 0 <= i < j < |keys|
        ensures keys[i] < keys[j]
      {
        assert keys[j] == rest[j - 1] && rest[j - 1] in rest;
        if i > 0 {
          assert keys[i] == rest[i - 1];
        }
      }
    }
  }

  /** The keys of `m` in the order `std::map<char, ...>` visits them. */
  function SortedKeys(m: FreqMap): (keys: seq<Char>)
    ensures |keys| == |m|
    ensures forall c :: c in keys <==> c in m
  {
    Ascending(m.Keys)
  }

  /** `std::map<char, ...>` visits its keys in strictly increasing order. */
  lemma SortedKeysIncrease(m: FreqMap)
    ensures forall i, j :: 0 <= i < j < |SortedKeys(m)| ==> SortedKeys(m)[i] < SortedKeys(m)[j]
  {
    AscendingSorted(m.Keys);
  }

  // ---------------------------------------------------------------------
  // Leaves and shape

  /** How many leaves hold symbol `s` with frequency `f`. */
  function Count(t: Tree, s: Char, f: int): nat {
    match t
    case Leaf(x, g) => if x == s && g == f then 1 else 0
    case Node(_, l, r) => Count(l, s, f) + Count(r, s, f)
  }

  /** The symbols at the leaves. */
  function Syms(t: Tree): set<Char> {
    match t
    case Leaf(s, _) => {s}
    case Node(_, l, r) => Syms(l) + Syms(r)
  }

  /** Every inner node carries the sum of its children's frequencies. */
  predicate Summed(t: Tree) {
    match t
    case Leaf(_, _) => true
    case Node(f, l, r) => f == l.freq + r.freq && Summed(l) && Summed(r)
  }

  function QueueCount(q: seq<Tree>, s: Char, f: int): nat {
    if q == [] then 0 else QueueCount(q[..|q| - 1], s, f) + Count(q[|q| - 1], s, f)
  }

  predicate AllSummed(q: seq<Tree>) {
    forall i :: 0 <= i < |q| ==> Summed(q[i])
  }

  // ---------------------------------------------------------------------
  // The priority queue

  /** The index of the node `pq.top()` returns; `MinIndexIsTop` states which one it is. */
  function MinIndex(q: seq<Tree>): (i: nat)
    requires |q| > 0
    ensures i < |q|
  {
    if |q| == 1 then 0
    else
      var k := MinIndex(q[..|q| - 1]);
      if q[|q| - 1].freq < q[k].freq then |q| - 1 else k
  }

  /**
   * `pq.top()` under `HuffmanCompare`: no other node is below it, and among
   * those the earliest pushed (equal frequencies are broken by insertion order).
   */
  lemma {:induction false} MinIndexIsTop(q: seq<Tree>)
    requires |q| > 0
    ensures forall j :: 0 <= j < |q| ==> !HuffmanCompare(q[MinIndex(q)], q[j])
    ensures forall j :: 0 <= j < MinIndex(q) ==> HuffmanCompare(q[j], q[MinIndex(q)])
    decreases |q|
  {
    if |q| > 1 {
      var p := q[..|q| - 1];
      MinIndexIsTop(p);
      assert forall j :: 0 <= j < |p| ==> p[j] == q[j];
    }
  }

  /** `pq.pop()` of the element at index `i`. */
  function Remove(q: seq<Tree>, i: nat): (r: seq<Tree>)
    requires i < |q|
    ensures |r| == |q| - 1
  {
    q[..i] + q[i + 1..]
  }

  /** `pq.pop()` takes out the top node once and keeps every other node. */
  lemma RemoveKeeps(q: seq<Tree>, i: nat)
    requires i < |q|
    ensures multiset(Remove(q, i)) + multiset{q[i]} == multiset(q)
  {
    assert q == q[..i] + [q[i]] + q[i + 1..];
  }

  /** One round of the loop: pop two, push their parent. */
  function Merge(q: seq<Tree>): (r: seq<Tree>)
    requires |q| >= 2
    ensures |r| == |q| - 1
  {
    var i := MinIndex(q);
    MergeAt(q, i, MinIndex(Remove(q, i)))
  }

  /** Pop `q[i]`, then entry `j` of what is left; push their parent. */
  function MergeAt(q: seq<Tree>, i: nat, j: nat): (r: seq<Tree>)
    requires i < |q| && j < |q| - 1
    ensures |r| == |q| - 1
  {
    var left := q[i];
    var rest := Remove(q, i);
    var right := rest[j];
    Remove(rest, j) + [Node(left.freq + right.freq, left, right)]
  }

  /** Rounds until one node is left; that node is the root. */
  function Combine(q: seq<Tree>): Tree
    requires |q| >= 1
    decreases |q|
  {
    if |q| == 1 then q[0] else Combine(Merge(q))
  }

  /** One leaf per entry of `keys`, in that order. */
  function LeavesOf(m: FreqMap, keys: seq<Char>): (q: seq<Tree>)
    requires forall c :: c in keys ==> c in m
    ensures |q| == |keys|
    ensures forall i :: 0 <= i < |keys| ==> q[i] == Leaf(keys[i], m[keys[i]])
  {
    seq(|keys|, i requires 0 <= i < |keys| => Leaf(keys[i], m[keys[i]]))
  }

  /** The initial queue: one leaf per map entry, pushed in map order. */
  function LeafQueue(m: FreqMap): seq<Tree> {
    LeavesOf(m, SortedKeys(m))
  }

  /** The tree `BuildHuffmanTree` returns for a non-empty map. */
  function BuildTree(m: FreqMap): Tree
    requires |m| > 0
  {
    Combine(LeafQueue(m))
  }

  method BuildHuffmanTree(freqMap: FreqMap) returns (root: Tree)
    requires |freqMap| > 0
    ensures root == BuildTree(freqMap)
  {
    var pq: seq<Tree> := [];
    var keys := SortedKeys(freqMap);
    for k := 0 to |keys|
      invariant |pq| == k
      invariant forall i :: 0 <= i < k ==> pq[i] == Leaf(keys[i], freqMap[keys[i]])
    {
      var leaf := Leaf(keys[k], freqMap[keys[k]]);
      ghost var prev := pq;
      pq := pq + [leaf];
      assert forall i :: 0 <= i < k ==> pq[i] == prev[i];
    }
    assert pq == LeafQueue(freqMap);
    root := MergeAll(pq);
  }

  /** The second loop of `BuildHuffmanTree`: merge rounds until one node is left. */
  method MergeAll(queue: seq<Tree>) returns (root: Tree)
    requires |queue| >= 1
    ensures root == Combine(queue)
  {
    var pq := queue;
    while |pq| != 1
      invariant |pq| >= 1
      invariant Combine(pq) == Combine(queue)
      decreases |pq|
    {
      // `top` then `pop`, twice; then push the parent
      var i := MinIndex(pq);
      var left := pq[i];
      var rest := Remove(pq, i);
      var j := MinIndex(rest);
      var right := rest[j];
      var sum := left.freq + right.freq;
      var node := Node(sum, left, right);
      var next := Remove(rest, j) + [node];
      MergeRound(pq, i, rest, j, next);
      CombineStep(pq);
      pq := next;
    }
    root := pq[0];
  }

  /** The loop body, step by step, is one `Merge` round: the root it leads to is the same. */
  lemma MergeRound(q: seq<Tree>, i: nat, rest: seq<Tree>, j: nat, r: seq<Tree>)
    requires |q| >= 2 && i == MinIndex(q) && rest == Remove(q, i)
    requires j == MinIndex(rest) && r == Remove(rest, j) + [Node(q[i].freq + rest[j].freq, q[i], rest[j])]
    ensures r == Merge(q)
  {
    assert Merge(q) == MergeAt(q, i, j);
  }

  /** Another round brings the queue no closer to a different root. */
  lemma CombineStep(q: seq<Tree>)
    requires |q| >= 2
    ensures Combine(q) == Combine(Merge(q))
  {
  }

  // ---------------------------------------------------------------------
  // What the tree is made of

  lemma QueueSingle(t: Tree, s: Char, f: int)
    ensures QueueCount([t], s, f) == Count(t, s, f)
  {
    assert [t][..0] == [];
  }

  lemma QueuePush(q: seq<Tree>, t: Tree, s: Char, f: int)
    ensures QueueCount(q + [t], s, f) == QueueCount(q, s, f) + Count(t, s, f)
  {
    assert (q + [t])[..|q|] == q;
  }

  lemma {:induction false} QueueAppend(a: seq<Tree>, b: seq<Tree>, s: Char, f: int)
    ensures QueueCount(a + b, s, f) == QueueCount(a, s, f) + QueueCount(b, s, f)
    decreases |b|
  {
    if b == [] {
      assert a + b == a;
    } else {
      var n := |b| - 1;
      QueueAppend(a, b[..n], s, f);
      assert (a + b)[..|a| + n] == a + b[..n];
      assert (a + b)[|a| + n] == b[n];
    }
  }

  /** Taking out element `i` removes exactly its leaves. */
  lemma QueueRemove(q: seq<Tree>, i: nat, s: Char, f: int)
    requires i < |q|
    ensures QueueCount(q, s, f) == QueueCount(Remove(q, i), s, f) + Count(q[i], s, f)
  {
    var before, after := q[..i], q[i + 1..];
    assert q == before + [q[i]] + after;
    QueueSingle(q[i], s, f);
    QueueAppend(before + [q[i]], after, s, f);
    QueueAppend(before, [q[i]], s, f);
    QueueAppend(before, after, s, f);
  }

  lemma RemoveSummed(q: seq<Tree>, i: nat)
    requires i < |q| && AllSummed(q)
    ensures AllSummed(Remove(q, i))
  {
    var r := Remove(q, i);
    forall k | 0 <= k < |r|
      ensures Summed(r[k])
    {
      if k < i {
        assert r[k] == q[k];
      } else {
        assert r[k] == q[k + 1];
      }
    }
  }

  /** A round keeps every leaf: the two it pops become the children of the node it pushes. */
  lemma MergeKeeps(q: seq<Tree>, s: Char, f: int)
    requires |q| >= 2
    ensures QueueCount(Merge(q), s, f) == QueueCount(q, s, f)
  {
    var i := MinIndex(q);
    var rest := Remove(q, i);
    var j := MinIndex(rest);
    var node := Node(q[i].freq + rest[j].freq, q[i], rest[j]);
    var shorter := Remove(rest, j);
    MergeRound(q, i, rest, j, shorter + [node]);
    QueueRemove(q, i, s, f);
    QueueRemove(rest, j, s, f);
    QueuePush(shorter, node, s, f);
    assert Count(node, s, f) == Count(q[i], s, f) + Count(rest[j], s, f);
  }

  /** A round keeps every inner node summed: the new parent carries its children's sum. */
  lemma MergeSummed(q: seq<Tree>)
    requires |q| >= 2 && AllSummed(q)
    ensures AllSummed(Merge(q))
  {
    var i := MinIndex(q);
    var rest := Remove(q, i);
    var j := MinIndex(rest);
    var node := Node(q[i].freq + rest[j].freq, q[i], rest[j]);
    var shorter := Remove(rest, j);
    var merged := shorter + [node];
    MergeRound(q, i, rest, j, merged);
    RemoveSummed(q, i);
    RemoveSummed(rest, j);
    assert Summed(node);
    forall k | 0 <= k < |merged|
      ensures Summed(merged[k])
    {
      if k < |shorter| {
        assert merged[k] == shorter[k];
      }
    }
  }

  /** The root holds every leaf of the queue. */
  lemma {:induction false} CombineKeeps(q: seq<Tree>, s: Char, f: int)
    requires |q| >= 1
    ensures Count(Combine(q), s, f) == QueueCount(q, s, f)
    decreases |q|
  {
    if |q| == 1 {
      QueueSingle(q[0], s, f);
      assert q == [q[0]];
    } else {
      MergeKeeps(q, s, f);
      CombineKeeps(Merge(q), s, f);
    }
  }

  /** The root sums its children all the way down; it is an inner node when the queue had two or more. */
  lemma {:induction false} CombineShape(q: seq<Tree>)
    requires |q| >= 1
    ensures AllSummed(q) ==> Summed(Combine(q))
    ensures Combine(q).Node? <==> |q| >= 2 || q[0].Node?
    decreases |q|
  {
    if |q| >= 2 {
      if AllSummed(q) {
        MergeSummed(q);
      }
      CombineShape(Merge(q));
      if |q| == 2 {
        var r := Merge(q);
        assert r[0].Node?;
      } else {
        assert |Merge(q)| >= 2;
      }
    }
  }

  /** One leaf per distinct key: each (key, frequency) pair once, nothing else. */
  lemma {:induction false} LeavesOfEntries(m: FreqMap, keys: seq<Char>, s: Char, f: int)
    requires forall c :: c in keys ==> c in m
    requires forall i, j :: 0 <= i < j < |keys| ==> keys[i] < keys[j]
    ensures QueueCount(LeavesOf(m, keys), s, f) == if s in keys && m[s] == f then 1 else 0
    decreases |keys|
  {
    if keys != [] {
      var n := |keys| - 1;
      var q := LeavesOf(m, keys);
      LeavesOfEntries(m, keys[..n], s, f);
      assert q[..n] == LeavesOf(m, keys[..n]);
      assert keys[n] !in keys[..n];
      assert s in keys <==> s in keys[..n] || s == keys[n];
    }
  }

  /** A symbol is in the tree exactly when some leaf holds it. */
  lemma {:induction false} SymsHaveLeaves(t: Tree, s: Char)
    ensures s in Syms(t) <==> exists f :: Count(t, s, f) > 0
  {
    match t
    case Leaf(x, g) =>
      assert Syms(t) == {x};
      if s == x {
        assert Count(t, s, g) == 1;
        assert exists f :: Count(t, s, f) > 0;
        assert s in Syms(t);
      } else {
        forall f
          ensures Count(t, s, f) == 0
        {
        }
      }
    case Node(_, l, r) =>
      SymsHaveLeaves(l, s);
      SymsHaveLeaves(r, s);
      assert s in Syms(t) <==> s in Syms(l) || s in Syms(r);
      if s in Syms(l) {
        var f :| Count(l, s, f) > 0;
        assert Count(t, s, f) > 0;
      } else if s in Syms(r) {
        var f :| Count(r, s, f) > 0;
        assert Count(t, s, f) > 0;
      } else {
        forall f
          ensures Count(t, s, f) == 0
        {
          assert Count(l, s, f) == 0 && Count(r, s, f) == 0;
        }
      }
  }

  /**
   * `BuildHuffmanTree` on a non-empty map: the leaves are exactly the map's
   * entries, each once (one leaf per key, holding that key's count).
   */
  lemma BuildTreeLeaves(m: FreqMap, s: Char, f: int)
    requires |m| > 0
    ensures Count(BuildTree(m), s, f) == if s in m && m[s] == f then 1 else 0
  {
    var keys := SortedKeys(m);
    SortedKeysIncrease(m);
    LeavesOfEntries(m, keys, s, f);
    CombineKeeps(LeafQueue(m), s, f);
  }

  /**
   * `BuildHuffmanTree` on a non-empty map: its symbols are the map's keys;
   * every inner node sums its children; the root is an inner node exactly when
   * the map has two or more entries.
   */
  lemma BuildTreeShape(m: FreqMap)
    requires |m| > 0
    ensures Syms(BuildTree(m)) == m.Keys
    ensures Summed(BuildTree(m))
    ensures BuildTree(m).Node? <==> |m| >= 2
  {
    var t := BuildTree(m);
    forall s
      ensures s in Syms(t) <==> s in m
    {
      SymsHaveLeaves(t, s);
      if s in m {
        BuildTreeLeaves(m, s, m[s]);
      }
      if s in Syms(t) {
        var f :| Count(t, s, f) > 0;
        BuildTreeLeaves(m, s, f);
      }
    }
    var q := LeafQueue(m);
    assert AllSummed(q);
    CombineShape(q);
    if |m| == 1 {
      assert q[0].Leaf?;
    }
  }

  // ---------------------------------------------------------------------
  // Codes

  /**
   * `GenerateCodes(node, code, huffmanCode)`: every leaf's symbol is mapped to
   * `code` followed by its path; the left subtree is written first, so for a
   * symbol on both sides the right one wins.
   */
  function GenerateCodes(node: Tree, code: string, huffmanCode: map<Char, string>): (r: map<Char, string>)
    ensures r.Keys == huffmanCode.Keys + Syms(node)
  {
    match node
    case Leaf(s, _) => huffmanCode[s := code]
    case Node(_, l, r) => GenerateCodes(r, code + "1", GenerateCodes(l, code + "0", huffmanCode))
  }

  /** The code table `Compress` builds for a map. */
  function Codes(m: FreqMap): (codes: map<Char, string>)
    requires |m| > 0
  {
    GenerateCodes(BuildTree(m), "", map[])
  }

  /** Following `path` from `t` ('0' left, anything else right, as `Decompress` walks) ends at leaf `s`. */
  predicate Reaches(t: Tree, path: string, s: Char) {
    match t
    case Leaf(x, _) => path == [] && x == s
    case Node(_, l, r) => |path| > 0 && Reaches(if path[0] == '0' then l else r, path[1..], s)
  }

  /** `GenerateCodes` leaves the entries of symbols outside the subtree as they were. */
  lemma {:induction false} GenerateCodesOthers(node: Tree, code: string, huffmanCode: map<Char, string>)
    ensures forall s :: s in huffmanCode && s !in Syms(node) ==>
      GenerateCodes(node, code, huffmanCode)[s] == huffmanCode[s]
  {
    match node
    case Leaf(_, _) =>
    case Node(_, l, r) =>
      GenerateCodesOthers(l, code + "0", huffmanCode);
      GenerateCodesOthers(r, code + "1", GenerateCodes(l, code + "0", huffmanCode));
  }

  /**
   * Each symbol of the subtree gets `code` followed by a path that reaches its
   * leaf, made of '0' and '1' only.
   */
  lemma {:induction false} GenerateCodesPaths(node: Tree, code: string, huffmanCode: map<Char, string>)
    ensures forall s :: s in Syms(node) ==>
      var c := GenerateCodes(node, code, huffmanCode)[s];
      |code| <= |c| && c[..|code|] == code && Reaches(node, c[|code|..], s) && IsBits(c[|code|..])
  {
    match node
    case Leaf(x, _) =>
      assert code[..|code|] == code;
    case Node(_, l, r) =>
      var codeL := code + "0";
      var codeR := code + "1";
      var mid := GenerateCodes(l, codeL, huffmanCode);
      GenerateCodesPaths(l, codeL, huffmanCode);
      GenerateCodesPaths(r, codeR, mid);
      GenerateCodesOthers(r, codeR, mid);
      var res := GenerateCodes(node, code, huffmanCode);
      forall s | s in Syms(node)
        ensures |code| <= |res[s]| && res[s][..|code|] == code
        ensures Reaches(node, res[s][|code|..], s) && IsBits(res[s][|code|..])
      {
        var sub := if s in Syms(r) then r else l;
        var codeS := if s in Syms(r) then codeR else codeL;
        ExtendPath(node, sub, code, codeS, res[s], s);
      }
  }

  /** A path below a child, prefixed with the step to that child, is a path below the node. */
  lemma ExtendPath(node: Tree, sub: Tree, code: string, codeS: string, c: string, s: Char)
    requires node.Node? && codeS == code + (if sub == node.right then "1" else "0")
    requires sub == node.left || sub == node.right
    requires |codeS| <= |c| && c[..|codeS|] == codeS && Reaches(sub, c[|codeS|..], s) && IsBits(c[|codeS|..])
    ensures |code| <= |c| && c[..|code|] == code && Reaches(node, c[|code|..], s) && IsBits(c[|code|..])
  {
    assert c[..|code|] == codeS[..|code|];
    var path := c[|code|..];
    assert path[0] == codeS[|code|];
    assert path[1..] == c[|codeS|..];
  }

  /**
   * Prefix freedom: if one path to a leaf is a prefix of another, they are the
   * same path to the same leaf.
   */
  lemma {:induction false} ReachesPrefix(t: Tree, p: string, q: string, s1: Char, s2: Char)
    requires Reaches(t, p, s1) && Reaches(t, q, s2)
    requires |p| <= |q| && q[..|p|] == p
    ensures p == q && s1 == s2
  {
    match t
    case Leaf(_, _) =>
    case Node(_, l, r) =>
      assert p[0] == q[0];
      assert q[1..][..|p| - 1] == p[1..];
      ReachesPrefix(if p[0] == '0' then l else r, p[1..], q[1..], s1, s2);
  }

  /**
   * The code table of a non-empty map: one code per key, made of '0' and '1',
   * each the path to that key's leaf; with two or more keys no code is
   * empty, and with one key the code is the empty string.
   */
  lemma CodesArePaths(m: FreqMap)
    requires |m| > 0
    ensures Codes(m).Keys == m.Keys
    ensures forall s :: s in m ==> Reaches(BuildTree(m), Codes(m)[s], s) && IsBits(Codes(m)[s])
    ensures |m| >= 2 ==> forall s :: s in m ==> |Codes(m)[s]| > 0
    ensures |m| == 1 ==> forall s :: s in m ==> Codes(m)[s] == ""
  {
    var t := BuildTree(m);
    var codes := Codes(m);
    BuildTreeShape(m);
    GenerateCodesPaths(t, "", map[]);
    forall s | s in m
      ensures Reaches(t, codes[s], s) && IsBits(codes[s])
    {
      assert codes[s][0..] == codes[s];
    }
  }

  /** No key's code is a prefix of another key's code. */
  lemma CodesPrefixFree(m: FreqMap)
    requires |m| > 0
    ensures Codes(m).Keys == m.Keys
    ensures forall s1, s2 :: s1 in m && s2 in m && s1 != s2 ==>
      !(|Codes(m)[s1]| <= |Codes(m)[s2]| && Codes(m)[s2][..|Codes(m)[s1]|] == Codes(m)[s1])
  {
    var t := BuildTree(m);
    var codes := Codes(m);
    CodesArePaths(m);
    forall s1, s2 | s1 in m && s2 in m && s1 != s2
      ensures !(|codes[s1]| <= |codes[s2]| && codes[s2][..|codes[s1]|] == codes[s1])
    {
      if |codes[s1]| <= |codes[s2]| && codes[s2][..|codes[s1]|] == codes[s1] {
        ReachesPrefix(t, codes[s1], codes[s2], s1, s2);
      }
    }
  }
}
