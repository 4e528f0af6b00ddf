/**
 The search in the catalog B-tree, OpenHfsPlus/fsw_hfsplus.c. Nodes are decoded
 records; a node can be unreadable or fail the sanity check on its record 0. The
 search is related to the sorted sequence of records in the leaves.
 */
module BTree {
  import opened Words
  import opened CatalogKeys

  datatype Kind = Leaf | Index | Header | Map

  /** What follows the key is a child's node number or a catalog record, as the node's kind says. */
  datatype Record = Record(key: Key, child: u32, recordType: u16, id: u32)

  /** A node of 16-bit size has far fewer than 2^15 records. */
  type Records = rs: seq<Record> | |rs| < 0x8000

  datatype Node = Node(kind: Kind, firstInPlace: bool, records: Records, fLink: u32)

  /** A node number outside the map is past the end of the file. */
  datatype Tree = Tree(root: u32, nodes: map<u32, Node>, unreadable: set<u32>)

  // ----- Well-formed trees -----

  ghost predicate Sorted(rs: seq<Record>) {
    forall i, j :: 0 <= i < j < |rs| ==> Rank(rs[i].key) < Rank(rs[j].key)
  }

  ghost predicate NodeOk(node: Node) {
    node.records != [] && Sorted(node.records)
  }

  /** Node n is the root of a subtree of height h: each index key is its child's first key. */
  ghost predicate Shape(t: Tree, n: u32, h: nat)
    decreases h, 0
  {
    n in t.nodes && NodeOk(t.nodes[n])
    && if h == 0 then t.nodes[n].kind == Leaf else
      t.nodes[n].kind == Index && Children(t, t.nodes[n].records, h - 1)
  }

  ghost predicate Children(t: Tree, rs: seq<Record>, h: nat)
    decreases h, 1
  {
    forall r <- rs :: Shape(t, r.child, h) && Rank(r.key) == Rank(t.nodes[r.child].records[0].key)
  }

  /** The numbers of the leaf nodes below n, from left to right. */
  ghost function Leaves(t: Tree, n: u32, h: nat): seq<u32>
    requires Shape(t, n, h)
    decreases h, 0
  {
    if h == 0 then [n] else Below(t, t.nodes[n].records, h - 1)
  }

  ghost function Below(t: Tree, rs: seq<Record>, h: nat): seq<u32>
    requires Children(t, rs, h)
    decreases h, |rs| + 1
  {
    if rs == [] then [] else Leaves(t, rs[0].child, h) + Below(t, rs[1..], h)
  }

  ghost predicate Known(t: Tree, ns: seq<u32>) {
    forall n <- ns :: n in t.nodes
  }

  /** The records of a list of nodes, one after another. */
  ghost function Flat(t: Tree, ns: seq<u32>): seq<Record>
    requires Known(t, ns)
  {
    if ns == [] then [] else Flat(t, ns[..|ns| - 1]) + t.nodes[ns[|ns| - 1]].records
  }

  /** A tree of height h whose leaves hold one sorted sequence. */
  ghost predicate WellFormed(t: Tree, h: nat) {
    Shape(t, t.root, h) && Sorted(AllRecords(t, h))
  }

  ghost function AllRecords(t: Tree, h: nat): seq<Record>
    requires Shape(t, t.root, h)
  {
    LeavesExist(t, t.root, h);
    Flat(t, Leaves(t, t.root, h))
  }

  /** Every node can be read and passes the check on its record 0. */
  ghost predicate Intact(t: Tree) {
    forall n <- t.nodes :: n !in t.unreadable && t.nodes[n].firstInPlace
  }

  ghost predicate Contains(rs: seq<Record>, k: real) {
    exists r <- rs :: Rank(r.key) == k
  }

  // ----- The tree and its leaves -----

  lemma {:induction false} LeavesExist(t: Tree, n: u32, h: nat)
    requires Shape(t, n, h)
    ensures Known(t, Leaves(t, n, h))
    ensures Leaves(t, n, h) != []
    decreases h, 0
  {
    if h > 0 {
      BelowExist(t, t.nodes[n].records, h - 1);
    }
  }

  lemma {:induction false} BelowExist(t: Tree, rs: seq<Record>, h: nat)
    requires Children(t, rs, h)
    ensures Known(t, Below(t, rs, h))
    ensures rs != [] ==> Below(t, rs, h) != []
    decreases h, |rs| + 1
  {
    if rs != [] {
      LeavesExist(t, rs[0].child, h);
      BelowExist(t, rs[1..], h);
    }
  }

  lemma {:induction false} FlatConcat(t: Tree, a: seq<u32>, b: seq<u32>)
    requires Known(t, a + b)
    ensures Known(t, a) && Known(t, b)
    ensures Flat(t, a + b) == Flat(t, a) + Flat(t, b)
  {
    assert forall n <- a :: n in a + b;
    assert forall n <- b :: n in a + b;
    if b == [] {
      assert a + b == a;
    } else {
      var c := b[..|b| - 1];
      assert (a + b)[..|a + b| - 1] == a + c;
      FlatConcat(t, a, c);
    }
  }

  lemma FlatOne(t: Tree, n: u32)
    requires n in t.nodes
    ensures Flat(t, [n]) == t.nodes[n].records
  {
    assert [n][..0] == [];
  }

  /** The first record below a node has the node's own first key. */
  lemma {:induction false} FirstRecord(t: Tree, n: u32, h: nat)
    requires Shape(t, n, h)
    ensures Known(t, Leaves(t, n, h))
    ensures Flat(t, Leaves(t, n, h)) != []
    ensures Rank(t.nodes[n].records[0].key) == Rank(Flat(t, Leaves(t, n, h))[0].key)
    decreases h, 0
  {
    LeavesExist(t, n, h);
    if h == 0 {
      FlatOne(t, n);
    } else {
      FirstBelow(t, t.nodes[n].records, h - 1);
    }
  }

  lemma {:induction false} FirstBelow(t: Tree, rs: seq<Record>, h: nat)
    requires Children(t, rs, h) && rs != []
    ensures Known(t, Below(t, rs, h))
    ensures Flat(t, Below(t, rs, h)) != []
    ensures Rank(rs[0].key) == Rank(Flat(t, Below(t, rs, h))[0].key)
    decreases h, |rs| + 1
  {
    BelowExist(t, rs, h);
    FirstRecord(t, rs[0].child, h);
    FlatConcat(t, Leaves(t, rs[0].child, h), Below(t, rs[1..], h));
  }

  lemma ChildrenParts(t: Tree, a: seq<Record>, b: seq<Record>, h: nat)
    requires Children(t, a + b, h)
    ensures Children(t, a, h) && Children(t, b, h)
  {
    assert forall r <- a :: r in a + b;
    assert forall r <- b :: r in a + b;
  }

  lemma {:induction false} BelowConcat(t: Tree, a: seq<Record>, b: seq<Record>, h: nat)
    requires Children(t, a + b, h)
    ensures Children(t, a, h) && Children(t, b, h)
    ensures Below(t, a + b, h) == Below(t, a, h) + Below(t, b, h)
    decreases |a|
  {
    ChildrenParts(t, a, b, h);
    if a == [] {
      assert a + b == b;
    } else {
      var rest := a[1..];
      assert a == [a[0]] + rest && a + b == [a[0]] + (rest + b);
      ChildrenParts(t, [a[0]], rest + b, h);
      assert (a + b)[1..] == rest + b;
      BelowConcat(t, rest, b, h);
      Assoc(Leaves(t, a[0].child, h), Below(t, rest, h), Below(t, b, h));
    }
  }

  // ----- Narrowing the search -----

  ghost predicate Smaller(rs: seq<Record>, k: real) {
    forall r <- rs :: Rank(r.key) < k
  }

  ghost predicate Greater(rs: seq<Record>, k: real) {
    forall r <- rs :: k < Rank(r.key)
  }

  /** All the leaves: those to the left hold smaller keys only, those to the right greater ones only. */
  ghost predicate Narrowed(t: Tree, all: seq<u32>, left: seq<u32>, mid: seq<u32>, right: seq<u32>, k: real) {
    all == left + mid + right
    && Known(t, all)
    && Known(t, left) && Known(t, right)
    && Smaller(Flat(t, left), k) && Greater(Flat(t, right), k)
  }

  /** Position i is where k belongs: at or after record i, and before the next one. */
  ghost predicate Belongs(rs: seq<Record>, i: int, k: real) {
    0 <= i < |rs|
    && Rank(rs[i].key) <= k
    && (i + 1 < |rs| ==> k < Rank(rs[i + 1].key))
  }

  lemma AllBelow(rs: seq<Record>, a: seq<Record>, b: seq<Record>, c: seq<Record>, k: real)
    requires rs == a + b + c && Sorted(rs) && b != [] && Rank(b[0].key) <= k
    ensures Smaller(a, k)
  {
    forall i | 0 <= i < |a|
      ensures Rank(a[i].key) < k
    {
      assert rs[i] == a[i] && rs[|a|] == b[0];
    }
  }

  lemma AllAbove(rs: seq<Record>, a: seq<Record>, c: seq<Record>, d: seq<Record>, k: real)
    requires rs == a + c + d && Sorted(rs) && c != [] && k < Rank(c[0].key)
    ensures Greater(c, k)
  {
    forall i | 0 <= i < |c|
      ensures k < Rank(c[i].key)
    {
      assert rs[|a| + i] == c[i] && rs[|a|] == c[0];
    }
  }

  /** The search has reached node n, and k lies below the whole tree exactly if it lies below n. */
  ghost predicate Focused(t: Tree, h: nat, left: seq<u32>, n: u32, height: nat, right: seq<u32>, k: real)
    requires Shape(t, t.root, h)
  {
    Shape(t, n, height)
    && Narrowed(t, Leaves(t, t.root, h), left, Leaves(t, n, height), right, k)
    && (BelowAll(t.nodes[n].records, k) <==> BelowAll(AllRecords(t, h), k))
  }

  /** Going down to the child where k belongs narrows the search to the leaves below it. */
  lemma Descend(t: Tree, h: nat, left: seq<u32>, n: u32, height: nat, right: seq<u32>, i: nat, k: real)
    returns (left': seq<u32>, right': seq<u32>)
    requires WellFormed(t, h) && Focused(t, h, left, n, height, right, k)
    requires height > 0 && Belongs(t.nodes[n].records, i, k) && !BelowAll(t.nodes[n].records, k)
    ensures Focused(t, h, left', t.nodes[n].records[i].child, height - 1, right', k)
  {
    var a, b, c := SplitBelow(t, t.nodes[n].records, i, height - 1);
    left', right' := left + a, c + right;
    NarrowTo(t, Leaves(t, t.root, h), left, a, b, c, right, k);
  }

  /** The leaves left of child i, below it, and right of it. */
  lemma SplitBelow(t: Tree, rs: seq<Record>, i: nat, h: nat) returns (a: seq<u32>, b: seq<u32>, c: seq<u32>)
    requires Children(t, rs, h) && i < |rs|
    ensures Shape(t, rs[i].child, h) && Rank(rs[i].key) == Rank(t.nodes[rs[i].child].records[0].key)
    ensures Below(t, rs, h) == a + (b + c) && b == Leaves(t, rs[i].child, h)
    ensures Known(t, b) && Flat(t, b) != [] && Rank(rs[i].key) == Rank(Flat(t, b)[0].key)
    ensures c != [] ==>
              i + 1 < |rs| && Known(t, c) && Flat(t, c) != [] && Rank(rs[i + 1].key) == Rank(Flat(t, c)[0].key)
  {
    assert rs == rs[..i] + rs[i..];
    BelowConcat(t, rs[..i], rs[i..], h);
    var rc := rs[i..][1..];
    assert rs[i] in rs && forall r <- rc :: r in rs;
    a, b, c := Below(t, rs[..i], h), Leaves(t, rs[i].child, h), Below(t, rc, h);
    FirstRecord(t, rs[i].child, h);
    if rc != [] {
      FirstBelow(t, rc, h);
    }
  }

  lemma NarrowTo(t: Tree, all: seq<u32>, left: seq<u32>, a: seq<u32>, b: seq<u32>, c: seq<u32>, right: seq<u32>,
                 k: real)
    requires Narrowed(t, all, left, a + (b + c), right, k) && Sorted(Flat(t, all))
    requires Known(t, b) && Flat(t, b) != [] && Rank(Flat(t, b)[0].key) <= k
    requires c != [] ==> Known(t, c) && Flat(t, c) != [] && k < Rank(Flat(t, c)[0].key)
    ensures Narrowed(t, all, left + a, b, c + right, k)
  {
    Regroup(left, a, b, c, right);
    var la, cr := left + a, c + right;
    SplitFlat(t, all, la, b, c, right);
    AllBelow(Flat(t, all), Flat(t, la), Flat(t, b), Flat(t, cr), k);
    if c == [] {
      assert cr == right;
    } else {
      AllAbove(Flat(t, all), Flat(t, la + b), Flat(t, c), Flat(t, right), k);
      GreaterConcat(Flat(t, c), Flat(t, right), k);
    }
  }

  lemma Regroup<T>(left: seq<T>, a: seq<T>, b: seq<T>, c: seq<T>, right: seq<T>)
    ensures left + (a + (b + c)) + right == (left + a) + b + (c + right)
  {
  }

  lemma GreaterConcat(a: seq<Record>, b: seq<Record>, k: real)
    requires Greater(a, k) && Greater(b, k)
    ensures Greater(a + b, k)
  {
  }

  lemma SplitFlat(t: Tree, all: seq<u32>, la: seq<u32>, b: seq<u32>, c: seq<u32>, right: seq<u32>)
    requires all == la + b + (c + right) && Known(t, all)
    ensures Known(t, la) && Known(t, b) && Known(t, c) && Known(t, right) && Known(t, c + right) && Known(t, la + b)
    ensures Flat(t, all) == Flat(t, la) + Flat(t, b) + Flat(t, c + right)
    ensures Flat(t, all) == Flat(t, la + b) + Flat(t, c) + Flat(t, right)
    ensures Flat(t, c + right) == Flat(t, c) + Flat(t, right)
  {
    FlatConcat(t, la + b, c + right);
    FlatConcat(t, la, b);
    FlatConcat(t, c, right);
    Assoc(Flat(t, la + b), Flat(t, c), Flat(t, right));
  }

  lemma Assoc<T>(a: seq<T>, b: seq<T>, c: seq<T>)
    ensures a + (b + c) == a + b + c
  {
  }

  // ----- One node -----

  datatype Comparator = ByKey | ByThread

  /** The place in the order that is sought in truth. */
  ghost function Target(cmp: Comparator, sk: Key): real {
    Rank(if cmp == ByThread then sk.(name := []) else sk)
  }

  method Compare(cmp: Comparator, tk: Key, sk: Key) returns (ret: int)
    ensures ret < 0 <==> Rank(tk) < Target(cmp, sk)
    ensures ret == 0 <==> Rank(tk) == Target(cmp, sk)
  {
    RankOrders(tk, sk);
    RankOrders(tk, sk.(name := []));
    match cmp
    case ByKey => ret := CatCmp(tk, sk);
    case ByThread => ret := ThreadCmp(tk, sk);
  }

  datatype Probe = Exact(rec: nat) | Between(rec: nat) | Outside

  /** Exact is a record with the key sought, Between the place where it would be, Outside means below record 0. */
  ghost predicate Probes(rs: seq<Record>, k: real, r: Probe) {
    match r
    case Exact(i) => Belongs(rs, i, k) && Rank(rs[i].key) == k && !BelowAll(rs, k)
    case Between(i) => Belongs(rs, i, k) && !Contains(rs, k) && !BelowAll(rs, k)
    case Outside => BelowAll(rs, k)
  }

  /** The records with smaller keys come before lo, those with greater keys after hi. */
  ghost predicate Bracketed(rs: seq<Record>, lo: int, hi: int, k: real) {
    (forall i :: 0 <= i < lo && i < |rs| ==> Rank(rs[i].key) < k)
    && (forall i :: hi < i < |rs| ==> i >= 0 && k < Rank(rs[i].key))
  }

  ghost predicate BelowAll(rs: seq<Record>, k: real) {
    rs == [] || k < Rank(rs[0].key)
  }

  function Wrap16(x: int): (r: u16)
    ensures 0 <= x < 0x1_0000 ==> r == x
    ensures x == -1 ==> r == 0xFFFF
  {
    x % 0x1_0000
  }

  /**
   Where the binary search within a node ends, whatever order the records are in.
   Above record 0 it stays inside the node; below it, hi wraps around, and the next
   probe is outside. hi == -1 stands for the value 65535 that is then reached.
   */
  ghost function Halve(rs: seq<Record>, lo: int, hi: int, k: real): (p: Probe)
    requires 0 <= lo <= hi + 1 <= |rs|
    ensures !p.Outside? ==> p.rec < |rs|
    decreases hi + 1 - lo
  {
    if hi < 0 then Outside
    else if lo > hi then Between(hi)
    else
      var m := (lo + hi) / 2;
      if Rank(rs[m].key) < k then Halve(rs, m + 1, hi, k)
      else if k < Rank(rs[m].key) then Halve(rs, lo, m - 1, k)
      else Exact(m)
  }

  ghost function ProbeOf(rs: seq<Record>, k: real): Probe {
    Halve(rs, 0, |rs| - 1, k)
  }

  /** In a sorted node it ends where the key belongs. */
  lemma {:induction false} HalveProbes(rs: seq<Record>, lo: int, hi: int, k: real)
    requires Sorted(rs) && 0 <= lo <= hi + 1 <= |rs| && Bracketed(rs, lo, hi, k)
    requires hi < 0 ==> BelowAll(rs, k)
    ensures Probes(rs, k, Halve(rs, lo, hi, k))
    decreases hi + 1 - lo
  {
    hide Rank, Bracketed, Sorted, Probes, BelowAll;
    if hi < 0 {
      ProbedOutside(rs, k);
    } else if lo > hi {
      NothingBetween(rs, lo, hi, k);
    } else {
      var m := (lo + hi) / 2;
      BracketStep(rs, lo, hi, m, k);
      if Rank(rs[m].key) < k {
        HalveProbes(rs, m + 1, hi, k);
      } else if k < Rank(rs[m].key) {
        HalveProbes(rs, lo, m - 1, k);
      } else {
        SameBelongs(rs, m, k);
      }
    }
  }

  lemma ProbedOutside(rs: seq<Record>, k: real)
    requires BelowAll(rs, k)
    ensures Probes(rs, k, Outside)
  {
  }

  lemma BracketStep(rs: seq<Record>, lo: int, hi: int, m: nat, k: real)
    requires Sorted(rs) && 0 <= lo <= m <= hi < |rs| && Bracketed(rs, lo, hi, k)
    ensures Rank(rs[m].key) < k ==> Bracketed(rs, m + 1, hi, k)
    ensures k < Rank(rs[m].key) ==> Bracketed(rs, lo, m - 1, k) && (m == 0 ==> BelowAll(rs, k))
  {
    hide Rank;
    forall i | 0 <= i < |rs|
      ensures i < m ==> Rank(rs[i].key) < Rank(rs[m].key)
      ensures m < i ==> Rank(rs[m].key) < Rank(rs[i].key)
    {
    }
  }

  lemma ProbeExact(rs: seq<Record>, k: real)
    requires Sorted(rs)
    ensures Probes(rs, k, ProbeOf(rs, k))
  {
    HalveProbes(rs, 0, |rs| - 1, k);
  }

  lemma HalveStep(rs: seq<Record>, lo: int, hi: int, k: real)
    requires 0 <= lo <= hi + 1 <= |rs|
    ensures hi < 0 ==> Halve(rs, lo, hi, k) == Outside
    ensures 0 <= hi < lo ==> Halve(rs, lo, hi, k) == Between(hi)
    ensures lo <= hi ==>
              var m := (lo + hi) / 2;
              Halve(rs, lo, hi, k) ==
              if Rank(rs[m].key) < k then Halve(rs, m + 1, hi, k)
              else if k < Rank(rs[m].key) then Halve(rs, lo, m - 1, k) else Exact(m)
  {
  }

  /** The index hi of the source, with the value that stands for 65535. */
  function Unwrap(hi: u16): int {
    if hi == 0xFFFF then -1 else hi
  }

  /** The search within a node as the source makes it, with indices of 16 bits. */
  method SearchNode(node: Node, cmp: Comparator, sk: Key) returns (r: Probe)
    ensures r == ProbeOf(node.records, Target(cmp, sk))
    ensures Sorted(node.records) ==> Probes(node.records, Target(cmp, sk), r)
  {
    hide Rank, Target, Sorted, Probes, Halve, Wrap16;
    var rs := node.records;
    ghost var k := Target(cmp, sk);
    if Sorted(rs) {
      ProbeExact(rs, k);
    }
    var lo: u16, hi: u16 := 0, Wrap16(|rs| - 1);
    while lo <= hi
      invariant lo <= Unwrap(hi) + 1 <= |rs| && (hi == 0xFFFF ==> lo == 0)
      invariant ProbeOf(rs, k) == Halve(rs, lo, Unwrap(hi), k)
      decreases Unwrap(hi) + 1 - lo
    {
      HalveStep(rs, lo, Unwrap(hi), k);
      var rec := (lo + hi) / 2;
      if rec >= |rs| {
        return Outside;
      }
      var c := Compare(cmp, rs[rec].key, sk);
      if c < 0 {
        lo := Wrap16(rec + 1);
      } else if c > 0 {
        hi := Wrap16(rec - 1);
      } else {
        return Exact(rec);
      }
    }
    HalveStep(rs, lo, Unwrap(hi), k);
    return Between(hi);
  }

  lemma SameBelongs(rs: seq<Record>, i: nat, k: real)
    requires Sorted(rs) && i < |rs| && Rank(rs[i].key) == k
    ensures Probes(rs, k, Exact(i))
  {
    forall j | 0 <= j < |rs|
      ensures j > i ==> k < Rank(rs[j].key)
      ensures j <= i ==> Rank(rs[j].key) <= k
    {
    }
  }

  lemma NothingBetween(rs: seq<Record>, lo: int, hi: int, k: real)
    requires Bracketed(rs, lo, hi, k) && 0 <= hi < lo <= |rs| && hi + 1 == lo
    ensures Probes(rs, k, Between(hi))
  {
    forall i | 0 <= i < |rs|
      ensures Rank(rs[i].key) != k
      ensures i <= hi ==> Rank(rs[i].key) <= k
    {
    }
  }

  // ----- The whole search -----

  datatype Result = Found(node: Node, rec: nat) | NotFound | Unreadable | Corrupted | OutOfNode

  /** Record rec of the leaf with index leaf. */
  ghost predicate IsRecord(t: Tree, h: nat, leaf: nat, node: Node, rec: nat)
    requires Shape(t, t.root, h)
  {
    LeavesExist(t, t.root, h);
    var ns := Leaves(t, t.root, h);
    leaf < |ns| && node == t.nodes[ns[leaf]] && rec < |node.records|
  }

  /**
   What a search for k must say: Found is a leaf record with that key, NotFound
   that there is none, OutOfNode that k is below every key; a search fails only on
   a damaged tree.
   */
  ghost predicate Answers(t: Tree, h: nat, k: real, r: Result)
    requires Shape(t, t.root, h)
  {
    match r
    case Found(node, rec) =>
      rec < |node.records| && Rank(node.records[rec].key) == k
      && (exists leaf: nat :: IsRecord(t, h, leaf, node, rec))
      && Contains(AllRecords(t, h), k) && !BelowAll(AllRecords(t, h), k)
    case NotFound => !Contains(AllRecords(t, h), k) && !BelowAll(AllRecords(t, h), k)
    case OutOfNode => BelowAll(AllRecords(t, h), k)
    case _ => !Intact(t)
  }

  /** A key that is looked for: by thread, the one with that parent and no name. */
  ghost predicate Matches(cmp: Comparator, tk: Key, sk: Key) {
    match cmp
    case ByKey => KeysAlike(tk, sk)
    case ByThread => tk.parentID == sk.parentID && tk.name == []
  }

  /** What it says about the keys in the leaves. */
  ghost predicate Tells(t: Tree, h: nat, cmp: Comparator, sk: Key, r: Result)
    requires Shape(t, t.root, h)
  {
    match r
    case Found(node, rec) => rec < |node.records| && Matches(cmp, node.records[rec].key, sk)
    case NotFound => forall x <- AllRecords(t, h) :: !Matches(cmp, x.key, sk)
    case OutOfNode => forall x <- AllRecords(t, h) :: !Matches(cmp, x.key, sk)
    case _ => !Intact(t)
  }

  lemma MatchesByRank(cmp: Comparator, tk: Key, sk: Key)
    ensures Matches(cmp, tk, sk) <==> Rank(tk) == Target(cmp, sk)
  {
    RankAlike(tk, if cmp == ByThread then sk.(name := []) else sk);
  }

  lemma AnswersTell(t: Tree, h: nat, cmp: Comparator, sk: Key, r: Result)
    requires WellFormed(t, h) && Answers(t, h, Target(cmp, sk), r)
    ensures Tells(t, h, cmp, sk, r)
  {
    if r.OutOfNode? {
      NoneBelow(AllRecords(t, h), Target(cmp, sk));
    }
    if r.Found? {
      MatchesByRank(cmp, r.node.records[r.rec].key, sk);
    }
    forall x | x in AllRecords(t, h)
      ensures Matches(cmp, x.key, sk) <==> Rank(x.key) == Target(cmp, sk)
    {
      MatchesByRank(cmp, x.key, sk);
    }
  }

  // ----- The way down -----

  /** At a node the search stops with a result, or goes down to another node. */
  datatype Turn = Stop(result: Result) | GoTo(node: u32)

  /** What it does at node n, in any tree. */
  ghost function TurnAt(t: Tree, k: real, n: u32): (turn: Turn)
    ensures turn.GoTo? ==> n in t.nodes
  {
    if n !in t.nodes || n in t.unreadable then Stop(Unreadable)
    else if !t.nodes[n].firstInPlace then Stop(Corrupted)
    else
      var node := t.nodes[n];
      var p := ProbeOf(node.records, k);
      if p.Outside? then Stop(OutOfNode)
      else if p.Exact? && node.kind == Leaf then Stop(Found(node, p.rec))
      else if node.kind != Index then Stop(NotFound)
      else GoTo(node.records[p.rec].child)
  }

  datatype Place = At(node: u32) | Over

  ghost function Next(t: Tree, k: real, p: Place): (p': Place)
    ensures p'.At? ==> p.At? && p.node in t.nodes
  {
    if p.Over? then Over
    else
      var turn := TurnAt(t, k, p.node);
      if turn.GoTo? then At(turn.node) else Over
  }

  /** Where the search is after i turns. */
  ghost function PlaceAfter(t: Tree, k: real, i: nat): Place {
    if i == 0 then At(t.root) else Next(t, k, PlaceAfter(t, k, i - 1))
  }

  /** The search comes to an end. */
  ghost predicate Ends(t: Tree, k: real) {
    exists i: nat :: PlaceAfter(t, k, i).Over?
  }

  /** No node number comes twice on the way down. */
  ghost predicate NoRepeat(t: Tree, k: real) {
    forall i: nat, j: nat {:trigger PlaceAfter(t, k, i), PlaceAfter(t, k, j)} ::
      i < j && PlaceAfter(t, k, j).At? ==> PlaceAfter(t, k, i) != PlaceAfter(t, k, j)
  }

  lemma {:induction false} StaysOver(t: Tree, k: real, i: nat, j: nat)
    requires i <= j && PlaceAfter(t, k, i).Over?
    ensures PlaceAfter(t, k, j).Over?
    decreases j
  {
    hide Next;
    if i < j {
      StaysOver(t, k, i, j - 1);
    }
  }

  /** From a repeated node on the way repeats itself. */
  lemma {:induction false} Repeats(t: Tree, k: real, i: nat, j: nat, d: nat)
    requires PlaceAfter(t, k, i) == PlaceAfter(t, k, j)
    ensures PlaceAfter(t, k, i + d) == PlaceAfter(t, k, j + d)
  {
    hide Next;
    if d > 0 {
      Repeats(t, k, i, j, d - 1);
    }
  }

  lemma {:induction false} RepeatNeverOver(t: Tree, k: real, i: nat, j: nat, m: nat)
    requires i < j && PlaceAfter(t, k, i) == PlaceAfter(t, k, j) && PlaceAfter(t, k, j).At?
    ensures PlaceAfter(t, k, m).At?
    decreases m
  {
    hide Next;
    if m <= j {
      if PlaceAfter(t, k, m).Over? {
        StaysOver(t, k, m, j);
      }
    } else {
      Repeats(t, k, i, j, m - j);
      RepeatNeverOver(t, k, i, j, i + (m - j));
    }
  }

  ghost predicate Passed(t: Tree, k: real, m: nat, n: u32) {
    exists i: nat :: i < m && PlaceAfter(t, k, i) == At(n)
  }

  /** The nodes of the first m turns. */
  lemma {:induction false} Visited(t: Tree, k: real, m: nat) returns (ns: set<u32>)
    requires NoRepeat(t, k) && PlaceAfter(t, k, m).At?
    ensures |ns| == m && forall n :: n in ns ==> n in t.nodes && Passed(t, k, m, n)
  {
    hide Next;
    ns := {};
    if m > 0 {
      var before := Visited(t, k, m - 1);
      assert PlaceAfter(t, k, m) == Next(t, k, PlaceAfter(t, k, m - 1));
      var last := PlaceAfter(t, k, m - 1).node;
      assert last !in before;
      ns := before + {last};
      forall n | n in ns
        ensures Passed(t, k, m, n)
      {
        if n == last {
          assert PlaceAfter(t, k, m - 1) == At(n);
        } else {
          var i: nat :| i < m - 1 && PlaceAfter(t, k, i) == At(n);
        }
      }
    }
  }

  /**
   Exactly when the search ends, in any tree: if and only if no node number comes
   twice on the way down. It has then read no more nodes than the tree has, and one.
   */
  lemma EndsIff(t: Tree, k: real)
    ensures Ends(t, k) <==> NoRepeat(t, k)
    ensures Ends(t, k) ==> PlaceAfter(t, k, |t.nodes| + 1).Over?
  {
    if Ends(t, k) {
      var m: nat :| PlaceAfter(t, k, m).Over?;
      forall i: nat, j: nat | i < j && PlaceAfter(t, k, j).At?
        ensures PlaceAfter(t, k, i) != PlaceAfter(t, k, j)
      {
        if PlaceAfter(t, k, i) == PlaceAfter(t, k, j) {
          RepeatNeverOver(t, k, i, j, m);
        }
      }
    }
    var m := |t.nodes| + 1;
    if NoRepeat(t, k) && PlaceAfter(t, k, m).At? {
      var ns := Visited(t, k, m);
      SubsetSize(ns, t.nodes.Keys);
    }
  }

  lemma {:induction false} SubsetSize<T>(a: set<T>, b: set<T>)
    requires a <= b
    ensures |a| <= |b|
  {
    if a != {} {
      var x :| x in a;
      SubsetSize(a - {x}, b - {x});
    }
  }

  /** A root that is its own child: whatever is sought from its key on, the search never ends. */
  lemma OwnChildNeverEnds(t: Tree, n: u32, r: Record, k: real)
    requires t.root == n && n in t.nodes && n !in t.unreadable
    requires t.nodes[n] == Node(Index, true, [r], 0) && r.child == n && Rank(r.key) <= k
    ensures !Ends(t, k)
  {
    ProbeExact([r], k);
    assert PlaceAfter(t, k, 1) == PlaceAfter(t, k, 0) == At(n);
    forall m: nat
      ensures PlaceAfter(t, k, m).At?
    {
      RepeatNeverOver(t, k, 0, 1, m);
    }
  }

  /** A search for less than the least key leaves the node: a tree of one leaf, and a key below its only one. */
  lemma BelowLeastLeavesNode() returns (t: Tree, sk: Key)
    ensures WellFormed(t, 0) && Intact(t) && BelowAll(AllRecords(t, 0), Rank(sk))
    ensures TurnAt(t, Rank(sk), t.root) == Stop(OutOfNode)
  {
    hide Rank, Halve;
    var leaf := Node(Leaf, true, [Record(Key(2, []), 0, 1, 0)], 0);
    t, sk := Tree(1, map[1 := leaf], {}), Key(1, []);
    FlatOne(t, 1);
    assert Shape(t, 1, 0) && Leaves(t, 1, 0) == [1];
    EmptyName(1);
    EmptyName(2);
    ProbeExact(leaf.records, Rank(sk));
  }

  lemma EmptyName(p: u32)
    ensures Rank(Key(p, [])) == p as real
  {
    assert Folded([]) == [];
  }

  // ----- The way down in a well-formed tree -----

  /** The search goes down level by level to where the key belongs. */
  lemma {:induction false} Arrives(t: Tree, h: nat, k: real, i: nat) returns (left: seq<u32>, right: seq<u32>)
    requires WellFormed(t, h) && PlaceAfter(t, k, i).At?
    ensures i <= h && Focused(t, h, left, PlaceAfter(t, k, i).node, h - i, right, k)
  {
    hide Focused, TurnAt;
    if i == 0 {
      left, right := [], [];
      Begin(t, h, k);
    } else {
      left, right := Arrives(t, h, k, i - 1);
      left, right := OneDown(t, h, left, PlaceAfter(t, k, i - 1).node, h - (i - 1), right, k);
    }
  }

  lemma OneDown(t: Tree, h: nat, left: seq<u32>, n: u32, height: nat, right: seq<u32>, k: real)
    returns (left': seq<u32>, right': seq<u32>)
    requires WellFormed(t, h) && Focused(t, h, left, n, height, right, k) && TurnAt(t, k, n).GoTo?
    ensures height > 0 && Focused(t, h, left', TurnAt(t, k, n).node, height - 1, right', k)
  {
    hide Rank, Narrowed, Halve;
    var rs := t.nodes[n].records;
    ProbeExact(rs, k);
    left', right' := Descend(t, h, left, n, height, right, ProbeOf(rs, k).rec, k);
  }

  lemma WellFormedEnds(t: Tree, h: nat, k: real)
    requires WellFormed(t, h)
    ensures Ends(t, k)
  {
    if PlaceAfter(t, k, h + 1).At? {
      var left, right := Arrives(t, h, k, h + 1);
    }
  }

  /** Where it stops, it gives the answer for the whole tree. */
  lemma StopAnswers(t: Tree, h: nat, k: real, i: nat)
    requires WellFormed(t, h) && PlaceAfter(t, k, i).At? && TurnAt(t, k, PlaceAfter(t, k, i).node).Stop?
    ensures Answers(t, h, k, TurnAt(t, k, PlaceAfter(t, k, i).node).result)
  {
    var n := PlaceAfter(t, k, i).node;
    var left, right := Arrives(t, h, k, i);
    var rs := t.nodes[n].records;
    ProbeExact(rs, k);
    var p := ProbeOf(rs, k);
    if n !in t.unreadable && t.nodes[n].firstInPlace && !p.Outside? {
      assert h - i == 0;
      AtLeaf(t, h, left, n, right, k, p);
    }
  }

  /**
   fsw_hfsplus_bt_search, on every tree on which its loop ends. In a well-formed
   tree, whether the key is in the leaves decides between Found and NotFound, and a
   search leaves a node exactly when the key is below the least one.
   */
  method Search(t: Tree, cmp: Comparator, sk: Key) returns (r: Result)
    requires Ends(t, Target(cmp, sk))
    ensures exists i: nat :: PlaceAfter(t, Target(cmp, sk), i).At?
                             && TurnAt(t, Target(cmp, sk), PlaceAfter(t, Target(cmp, sk), i).node) == Stop(r)
    ensures forall h: nat :: WellFormed(t, h) ==> Answers(t, h, Target(cmp, sk), r) && Tells(t, h, cmp, sk, r)
  {
    ghost var k := Target(cmp, sk);
    var n := t.root;
    ghost var i: nat := 0;
    EndsIff(t, k);
    while true
      invariant PlaceAfter(t, k, i) == At(n)
      invariant i <= |t.nodes| + 1
      decreases |t.nodes| + 1 - i
    {
      if i == |t.nodes| + 1 {
        assert false;
      }
      assert PlaceAfter(t, k, i + 1) == match TurnAt(t, k, n) case Stop(_) => Over case GoTo(c) => At(c);
      if TurnAt(t, k, n).Stop? {
        StopsHere(t, cmp, sk, i);
      }
      if n !in t.nodes || n in t.unreadable {
        return Unreadable;
      }
      var node := t.nodes[n];
      if !node.firstInPlace {
        return Corrupted;
      }
      var p := SearchNode(node, cmp, sk);
      if p.Outside? {
        return OutOfNode;
      }
      if p.Exact? && node.kind == Leaf {
        return Found(node, p.rec);
      }
      if node.kind != Index {
        return NotFound;
      }
      n, i := node.records[p.rec].child, i + 1;
    }
  }

  lemma StopsHere(t: Tree, cmp: Comparator, sk: Key, i: nat)
    requires var k := Target(cmp, sk); PlaceAfter(t, k, i).At? && TurnAt(t, k, PlaceAfter(t, k, i).node).Stop?
    ensures var k := Target(cmp, sk);
            var r := TurnAt(t, k, PlaceAfter(t, k, i).node).result;
            forall h: nat :: WellFormed(t, h) ==> Answers(t, h, k, r) && Tells(t, h, cmp, sk, r)
  {
    var k := Target(cmp, sk);
    var r := TurnAt(t, k, PlaceAfter(t, k, i).node).result;
    forall h: nat | WellFormed(t, h)
      ensures Answers(t, h, k, r) && Tells(t, h, cmp, sk, r)
    {
      StopAnswers(t, h, k, i);
      AnswersTell(t, h, cmp, sk, r);
    }
  }

  lemma Begin(t: Tree, h: nat, k: real)
    requires Shape(t, t.root, h)
    ensures Focused(t, h, [], t.root, h, [], k)
  {
    FirstRecord(t, t.root, h);
    assert Leaves(t, t.root, h) == [] + Leaves(t, t.root, h) + [];
  }

  /** At a leaf, the node's answer is the tree's. */
  lemma AtLeaf(t: Tree, h: nat, left: seq<u32>, n: u32, right: seq<u32>, k: real, p: Probe)
    requires Shape(t, t.root, h) && n in t.nodes && Narrowed(t, Leaves(t, t.root, h), left, [n], right, k)
    requires Probes(t.nodes[n].records, k, p) && !p.Outside? && !BelowAll(AllRecords(t, h), k)
    ensures p.Exact? ==> Answers(t, h, k, Found(t.nodes[n], p.rec))
    ensures p.Between? ==> Answers(t, h, k, NotFound)
  {
    var all, rs := Leaves(t, t.root, h), t.nodes[n].records;
    FlatConcat(t, left + [n], right);
    FlatConcat(t, left, [n]);
    FlatOne(t, n);
    assert Flat(t, all) == Flat(t, left) + rs + Flat(t, right);
    if p.Exact? {
      Middle(Flat(t, left), rs, Flat(t, right), p.rec);
      assert IsRecord(t, h, |left|, t.nodes[n], p.rec);
    }
  }

  lemma Middle<T>(a: seq<T>, b: seq<T>, c: seq<T>, i: nat)
    requires i < |b|
    ensures (a + b + c)[|a| + i] == b[i] && b[i] in a + b + c
  {
    assert (a + b + c)[|a| + i] == b[i];
  }

  // ----- Leaves and the records in them -----

  /** How many records are in the leaves before leaf j. */
  ghost function Before(t: Tree, ns: seq<u32>, j: nat): nat
    requires Known(t, ns) && j <= |ns|
  {
    |Flat(t, ns[..j])|
  }

  lemma FlatNext(t: Tree, ns: seq<u32>, j: nat)
    requires Known(t, ns) && j < |ns|
    ensures Flat(t, ns[..j + 1]) == Flat(t, ns[..j]) + t.nodes[ns[j]].records
  {
    assert ns[..j + 1][..j] == ns[..j];
  }

  lemma FlatPrefix(t: Tree, ns: seq<u32>, j: nat)
    requires Known(t, ns) && j <= |ns|
    ensures Flat(t, ns[..j]) <= Flat(t, ns)
  {
    assert ns == ns[..j] + ns[j..];
    FlatConcat(t, ns[..j], ns[j..]);
  }

  /** Record rec of leaf j among all the records. */
  lemma RecordAt(t: Tree, ns: seq<u32>, j: nat, rec: nat)
    requires Known(t, ns) && j < |ns| && rec <= |t.nodes[ns[j]].records|
    ensures Before(t, ns, j) + |t.nodes[ns[j]].records| == Before(t, ns, j + 1) <= |Flat(t, ns)|
    ensures rec < |t.nodes[ns[j]].records| ==> Flat(t, ns)[Before(t, ns, j) + rec] == t.nodes[ns[j]].records[rec]
  {
    FlatNext(t, ns, j);
    FlatPrefix(t, ns, j + 1);
    if rec < |t.nodes[ns[j]].records| {
      PrefixAt(Flat(t, ns[..j]), t.nodes[ns[j]].records, Flat(t, ns), rec);
    }
  }

  lemma PrefixAt<T>(a: seq<T>, b: seq<T>, all: seq<T>, i: nat)
    requires a + b <= all && i < |b|
    ensures all[|a| + i] == b[i]
  {
    assert (a + b)[|a| + i] == b[i];
  }

  /** A tree that can be read gives one answer only. */
  lemma AnswerUnique(t: Tree, h: nat, k: real, r: Result, r': Result)
    requires WellFormed(t, h) && Intact(t)
    requires Answers(t, h, k, r) && Answers(t, h, k, r')
    ensures r == r'
  {
    var all, ns := AllRecords(t, h), Leaves(t, t.root, h);
    LeavesExist(t, t.root, h);
    if r.Found? && r'.Found? {
      var leaf: nat :| IsRecord(t, h, leaf, r.node, r.rec);
      var leaf': nat :| IsRecord(t, h, leaf', r'.node, r'.rec);
      RecordAt(t, ns, leaf, r.rec);
      RecordAt(t, ns, leaf', r'.rec);
      assert Before(t, ns, leaf) + r.rec == Before(t, ns, leaf') + r'.rec;
      if leaf < leaf' {
        BeforeMonotone(t, ns, leaf + 1, leaf');
      } else if leaf' < leaf {
        BeforeMonotone(t, ns, leaf' + 1, leaf);
      }
    } else if BelowAll(all, k) {
      NoneBelow(all, k);
    }
  }

  /** On a readable tree the answer says exactly where the key stands. */
  lemma AnswerExact(t: Tree, h: nat, k: real, r: Result)
    requires WellFormed(t, h) && Intact(t) && Answers(t, h, k, r)
    ensures r.OutOfNode? <==> BelowAll(AllRecords(t, h), k)
    ensures r.Found? <==> Contains(AllRecords(t, h), k)
    ensures r.NotFound? <==> !Contains(AllRecords(t, h), k) && !BelowAll(AllRecords(t, h), k)
  {
    if BelowAll(AllRecords(t, h), k) {
      NoneBelow(AllRecords(t, h), k);
    }
  }

  lemma BeforeMonotone(t: Tree, ns: seq<u32>, i: nat, j: nat)
    requires Known(t, ns) && i <= j <= |ns|
    ensures Before(t, ns, i) <= Before(t, ns, j)
  {
    assert ns[..j] == ns[..i] + ns[i..j];
    FlatConcat(t, ns[..i], ns[i..j]);
  }

  lemma NoneBelow(rs: seq<Record>, k: real)
    requires Sorted(rs) && BelowAll(rs, k)
    ensures !Contains(rs, k)
  {
  }
}
