/** `KDMap<Coord, V>`: a k-d tree mapping k-dimensional positions to values.
    Coordinates are integers compared by `<`; positions are compared with
    structural (element-wise) equality. A node at depth `d` splits on
    dimension `d % k`: strictly smaller coordinates go left, the rest go
    right. Nodes are never removed or rewritten; an insertion hangs one new
    leaf under an existing node. */
module KDTrees {
  import opened Wrappers
  import opened Exceptions

  type Position = seq<int>

  datatype Tree<V> = Nil | Node(position: Position, value: V, left: Tree<V>, right: Tree<V>)

  /** The map: its dimensionality `k` and the root (`Nil` while empty). */
  datatype KDMap<V> = KDMap(k: int, root: Tree<V>)

  // ---------------------------------------------------------------------
  // What a tree holds

  function Keys<V>(t: Tree<V>): set<Position> {
    match t
    case Nil => {}
    case Node(pos, _, l, r) => Keys(l) + Keys(r) + {pos}
  }

  /** The map the tree represents. When a position occurs more than once
      the node's own entry takes precedence, then the right subtree's over
      the left's; in a tree satisfying `Unique` no position repeats. */
  function Contents<V>(t: Tree<V>): (c: map<Position, V>)
    ensures c.Keys == Keys(t)
  {
    match t
    case Nil => map[]
    case Node(pos, v, l, r) => (Contents(l) + Contents(r))[pos := v]
  }

  function Size<V>(t: Tree<V>): nat {
    match t
    case Nil => 0
    case Node(_, _, l, r) => Size(l) + Size(r) + 1
  }

  /** Every stored position has `k` coordinates. */
  predicate KeysHaveLength<V>(t: Tree<V>, k: int) {
    match t
    case Nil => true
    case Node(pos, _, l, r) => |pos| == k && KeysHaveLength(l, k) && KeysHaveLength(r, k)
  }

  /** No position is stored twice. */
  predicate Unique<V>(t: Tree<V>) {
    match t
    case Nil => true
    case Node(pos, _, l, r) =>
      pos !in Keys(l) && pos !in Keys(r) && Keys(l) !! Keys(r) && Unique(l) && Unique(r)
  }

  /** The search-tree order: below a node at depth `d`, the left subtree
      holds only positions whose coordinate `d % k` is smaller than the
      node's, the right subtree only positions whose coordinate is at least
      the node's. With no dimensions there is nothing to split on, and a
      node has no children. */
  predicate Ordered<V>(t: Tree<V>, depth: nat, k: int) {
    match t
    case Nil => true
    case Node(pos, _, l, r) =>
      if k <= 0 then l.Nil? && r.Nil?
      else
        var dim := depth % k;
        dim < |pos| &&
        AllBelow(l, dim, pos[dim]) && AllAtLeast(r, dim, pos[dim]) &&
        Ordered(l, depth + 1, k) && Ordered(r, depth + 1, k)
  }

  /** Every position in `t` has a coordinate `dim` smaller than `x`. */
  predicate AllBelow<V>(t: Tree<V>, dim: nat, x: int) {
    match t
    case Nil => true
    case Node(pos, _, l, r) => dim < |pos| && pos[dim] < x && AllBelow(l, dim, x) && AllBelow(r, dim, x)
  }

  /** Every position in `t` has a coordinate `dim` of at least `x`. */
  predicate AllAtLeast<V>(t: Tree<V>, dim: nat, x: int) {
    match t
    case Nil => true
    case Node(pos, _, l, r) => dim < |pos| && pos[dim] >= x && AllAtLeast(l, dim, x) && AllAtLeast(r, dim, x)
  }

  /** A key of a tree below `x` on `dim` is below `x` on `dim`. */
  lemma {:induction false} BelowMember<V>(t: Tree<V>, dim: nat, x: int, q: Position)
    requires AllBelow(t, dim, x)
    ensures q in Keys(t) ==> dim < |q| && q[dim] < x
  {
    if t.Node? {
      BelowMember(t.left, dim, x, q);
      BelowMember(t.right, dim, x, q);
    }
  }

  lemma {:induction false} AtLeastMember<V>(t: Tree<V>, dim: nat, x: int, q: Position)
    requires AllAtLeast(t, dim, x)
    ensures q in Keys(t) ==> dim < |q| && q[dim] >= x
  {
    if t.Node? {
      AtLeastMember(t.left, dim, x, q);
      AtLeastMember(t.right, dim, x, q);
    }
  }

  /** `AllBelow` and `AllAtLeast` are statements about the key set. */
  lemma {:induction false} AllBelowKeys<V>(t: Tree<V>, dim: nat, x: int)
    ensures AllBelow(t, dim, x) <==> forall q :: q in Keys(t) ==> dim < |q| && q[dim] < x
  {
    if t.Node? {
      AllBelowKeys(t.left, dim, x);
      AllBelowKeys(t.right, dim, x);
    }
  }

  lemma {:induction false} AllAtLeastKeys<V>(t: Tree<V>, dim: nat, x: int)
    ensures AllAtLeast(t, dim, x) <==> forall q :: q in Keys(t) ==> dim < |q| && q[dim] >= x
  {
    if t.Node? {
      AllAtLeastKeys(t.left, dim, x);
      AllAtLeastKeys(t.right, dim, x);
    }
  }

  /** The map's invariant, established by `Empty` and kept by `Insert`. */
  predicate Valid<V>(m: KDMap<V>) {
    KeysHaveLength(m.root, m.k) && Unique(m.root) && Ordered(m.root, 0, m.k)
  }

  /** `new KDMap(k)`. */
  function Empty<V>(k: int): (m: KDMap<V>)
    ensures Valid(m)
    ensures m.k == k && Contents(m.root) == map[]
  {
    KDMap(k, Nil)
  }

  // ---------------------------------------------------------------------
  // Insert

  /** `Node.Insert(depth, k, position, value)` on the subtree `t`: the new
      subtree, or the exception it throws. Nothing is changed when it
      throws, because the tree is only modified at the new leaf. */
  function InsertNode<V>(t: Tree<V>, depth: nat, k: int, p: Position, v: V): (r: Result<Tree<V>, Exception>)
    requires t.Node?
    requires |p| == k && KeysHaveLength(t, k)
    ensures r.Failure? ==> r.error == ArgumentException(AlreadyOccupied) && p in Keys(t)
    ensures r.Success? ==> Keys(r.value) == Keys(t) + {p} && Size(r.value) == Size(t) + 1
    ensures r.Success? ==> KeysHaveLength(r.value, k)
    decreases t
  {
    if p == t.position then
      Failure(ArgumentException(AlreadyOccupied))
    else
      var dim := depth % k;
      if p[dim] < t.position[dim] then
        if t.left.Nil? then
          Success(t.(left := Node(p, v, Nil, Nil)))
        else
          var l :- InsertNode(t.left, depth + 1, k, p, v);
          Success(t.(left := l))
      else
        if t.right.Nil? then
          Success(t.(right := Node(p, v, Nil, Nil)))
        else
          var r :- InsertNode(t.right, depth + 1, k, p, v);
          Success(t.(right := r))
  }

  /** `KDMap.Insert(position, value)`: the map after the call, or the
      exception it throws. */
  function Insert<V>(m: KDMap<V>, p: Position, v: V): (r: Result<KDMap<V>, Exception>)
    requires KeysHaveLength(m.root, m.k)
    ensures |p| != m.k ==> r == Failure(ArgumentException(WrongDimensionality))
    ensures |p| == m.k && m.root.Nil? ==> r == Success(KDMap(m.k, Node(p, v, Nil, Nil)))
    ensures |p| == m.k && r.Failure? ==> r.error == ArgumentException(AlreadyOccupied) && p in Keys(m.root)
    ensures r.Success? ==> r.value.k == m.k && KeysHaveLength(r.value.root, m.k)
    ensures r.Success? ==> Keys(r.value.root) == Keys(m.root) + {p} && Size(r.value.root) == Size(m.root) + 1
  {
    if |p| != m.k then
      Failure(ArgumentException(WrongDimensionality))
    else if m.root.Nil? then
      Success(KDMap(m.k, Node(p, v, Nil, Nil)))
    else
      var root :- InsertNode(m.root, 0, m.k, p, v);
      Success(KDMap(m.k, root))
  }

  // ---------------------------------------------------------------------
  // Get

  /** `Node.Get(depth, k, position)` on the subtree `t`, with a missing child
      (`null`) as `Nil`: the value of the node found, `None` when the search
      runs off the tree, or the exception it throws. `depth % k` throws for
      `k == 0`; `position[dimension]` throws when the query is too short. */
  function FindNode<V>(t: Tree<V>, depth: nat, k: int, p: Position): (r: Result<Option<V>, Exception>)
    requires KeysHaveLength(t, k)
    ensures r.Success? && r.value.Some? ==> p in Keys(t)
    ensures r.Success? && r.value.Some? && Unique(t) ==> Contents(t)[p] == r.value.value
    decreases t
  {
    match t
    case Nil => Success(None)
    case Node(pos, val, l, r) =>
      if p == pos then Success(Some(val))
      else if k == 0 then Failure(DivideByZeroException)
      else
        var dim := depth % k;
        if dim >= |p| then Failure(IndexOutOfRangeException)
        else if p[dim] < pos[dim] then FindNode(l, depth + 1, k, p)
        else FindNode(r, depth + 1, k, p)
  }

  /** `KDMap.Get(position)`; `absent` is `default(V)`. */
  function Get<V>(m: KDMap<V>, p: Position, absent: V): (r: Result<V, Exception>)
    requires KeysHaveLength(m.root, m.k)
    ensures m.root.Nil? ==> r == Success(absent)
    ensures r.Success? && r.value != absent ==> p in Keys(m.root)
    ensures r.Success? && r.value != absent && Unique(m.root) ==> Contents(m.root)[p] == r.value
  {
    if m.root.Nil? then Success(absent)
    else
      var found :- FindNode(m.root, 0, m.k, p);
      Success(found.GetOr(absent))
  }

  // ---------------------------------------------------------------------
  // Insert: failure exactly on a present key, and the invariant kept

  /** In an ordered tree the search path of a stored position reaches the
      node holding it, so inserting it again throws. */
  lemma {:induction false} InsertNodeFailsIffPresent<V>(t: Tree<V>, depth: nat, k: int, p: Position, v: V)
    requires t.Node?
    requires |p| == k && KeysHaveLength(t, k)
    requires Ordered(t, depth, k)
    ensures InsertNode(t, depth, k, p, v).Failure? <==> p in Keys(t)
    decreases t
  {
    if p != t.position && p in Keys(t) {
      var dim := depth % k;
      if p[dim] < t.position[dim] {
        AtLeastMember(t.right, dim, t.position[dim], p);
        assert p in Keys(t.left);
        InsertNodeFailsIffPresent(t.left, depth + 1, k, p, v);
      } else {
        BelowMember(t.left, dim, t.position[dim], p);
        assert p in Keys(t.right);
        InsertNodeFailsIffPresent(t.right, depth + 1, k, p, v);
      }
    }
  }

  lemma {:induction false} InsertNodeKeepsOrder<V>(t: Tree<V>, depth: nat, k: int, p: Position, v: V)
    requires t.Node?
    requires |p| == k && KeysHaveLength(t, k)
    requires Ordered(t, depth, k) && Unique(t)
    requires InsertNode(t, depth, k, p, v).Success?
    ensures Ordered(InsertNode(t, depth, k, p, v).value, depth, k)
    ensures Unique(InsertNode(t, depth, k, p, v).value)
    decreases t, 1
  {
    InsertNodeFailsIffPresent(t, depth, k, p, v);
    if p[depth % k] < t.position[depth % k] {
      InsertLeftKeepsOrder(t, depth, k, p, v);
    } else {
      InsertRightKeepsOrder(t, depth, k, p, v);
    }
  }

  lemma {:induction false} InsertLeftKeepsOrder<V>(t: Tree<V>, depth: nat, k: int, p: Position, v: V)
    requires t.Node? && k > 0
    requires |p| == k && KeysHaveLength(t, k)
    requires Ordered(t, depth, k) && Unique(t) && p !in Keys(t)
    requires p[depth % k] < t.position[depth % k]
    ensures InsertNode(t, depth, k, p, v).Success?
    ensures Ordered(InsertNode(t, depth, k, p, v).value, depth, k)
    ensures Unique(InsertNode(t, depth, k, p, v).value)
    decreases t, 0
  {
    var l' := if t.left.Nil? then Node(p, v, Nil, Nil) else InsertNode(t.left, depth + 1, k, p, v).value;
    if t.left.Node? {
      InsertNodeFailsIffPresent(t.left, depth + 1, k, p, v);
      InsertNodeKeepsOrder(t.left, depth + 1, k, p, v);
    }
    assert InsertNode(t, depth, k, p, v) == Success(t.(left := l'));
    HangLeft(t, depth, k, p, l');
  }

  lemma {:induction false} InsertRightKeepsOrder<V>(t: Tree<V>, depth: nat, k: int, p: Position, v: V)
    requires t.Node? && k > 0
    requires |p| == k && KeysHaveLength(t, k)
    requires Ordered(t, depth, k) && Unique(t) && p !in Keys(t)
    requires p[depth % k] >= t.position[depth % k]
    ensures InsertNode(t, depth, k, p, v).Success?
    ensures Ordered(InsertNode(t, depth, k, p, v).value, depth, k)
    ensures Unique(InsertNode(t, depth, k, p, v).value)
    decreases t, 0
  {
    var r' := if t.right.Nil? then Node(p, v, Nil, Nil) else InsertNode(t.right, depth + 1, k, p, v).value;
    if t.right.Node? {
      InsertNodeFailsIffPresent(t.right, depth + 1, k, p, v);
      InsertNodeKeepsOrder(t.right, depth + 1, k, p, v);
    }
    assert InsertNode(t, depth, k, p, v) == Success(t.(right := r'));
    HangRight(t, depth, k, p, r');
  }

  /** Replacing the left subtree by one that has gained the position `p`,
      which belongs on the left, keeps a node ordered and unique. */
  lemma HangLeft<V>(t: Tree<V>, depth: nat, k: int, p: Position, l': Tree<V>)
    requires t.Node? && k > 0 && |p| == k
    requires Ordered(t, depth, k) && Unique(t) && p !in Keys(t)
    requires p[depth % k] < t.position[depth % k]
    requires Keys(l') == Keys(t.left) + {p} && Ordered(l', depth + 1, k) && Unique(l')
    ensures Ordered(t.(left := l'), depth, k) && Unique(t.(left := l'))
  {
    AllBelowKeys(t.left, depth % k, t.position[depth % k]);
    AllBelowKeys(l', depth % k, t.position[depth % k]);
  }

  /** The same for the right subtree. */
  lemma HangRight<V>(t: Tree<V>, depth: nat, k: int, p: Position, r': Tree<V>)
    requires t.Node? && k > 0 && |p| == k
    requires Ordered(t, depth, k) && Unique(t) && p !in Keys(t)
    requires p[depth % k] >= t.position[depth % k]
    requires Keys(r') == Keys(t.right) + {p} && Ordered(r', depth + 1, k) && Unique(r')
    ensures Ordered(t.(right := r'), depth, k) && Unique(t.(right := r'))
  {
    AllAtLeastKeys(t.right, depth % k, t.position[depth % k]);
    AllAtLeastKeys(r', depth % k, t.position[depth % k]);
  }

  /** A successful insertion adds exactly the pair `(p, v)` to the contents. */
  lemma {:induction false} InsertNodeContents<V>(t: Tree<V>, depth: nat, k: int, p: Position, v: V)
    requires t.Node?
    requires |p| == k && KeysHaveLength(t, k)
    requires InsertNode(t, depth, k, p, v).Success?
    requires p !in Keys(t)
    ensures Contents(InsertNode(t, depth, k, p, v).value) == Contents(t)[p := v]
    decreases t
  {
    var dim := depth % k;
    var t' := InsertNode(t, depth, k, p, v).value;
    if p[dim] < t.position[dim] {
      if t.left.Node? {
        InsertNodeContents(t.left, depth + 1, k, p, v);
      }
      UpdateBelow(Contents(t.left), Contents(t.right), t.position, t.value, p, v);
    } else {
      if t.right.Node? {
        InsertNodeContents(t.right, depth + 1, k, p, v);
      }
      UpdateBelowRight(Contents(t.left), Contents(t.right), t.position, t.value, p, v);
    }
  }

  lemma UpdateBelow<V>(a: map<Position, V>, b: map<Position, V>, pos: Position, w: V, p: Position, v: V)
    requires p != pos && p !in b
    ensures (a[p := v] + b)[pos := w] == ((a + b)[pos := w])[p := v]
  {
  }

  lemma UpdateBelowRight<V>(a: map<Position, V>, b: map<Position, V>, pos: Position, w: V, p: Position, v: V)
    requires p != pos
    ensures (a + b[p := v])[pos := w] == ((a + b)[pos := w])[p := v]
  {
  }

  /** `Insert` keeps the invariant, throws exactly for a wrong dimensionality
      or a position already present, and otherwise adds `(p, v)`. */
  lemma InsertSpec<V>(m: KDMap<V>, p: Position, v: V)
    requires Valid(m)
    ensures Insert(m, p, v).Failure? <==> |p| != m.k || p in Keys(m.root)
    ensures Insert(m, p, v).Success? ==>
      Valid(Insert(m, p, v).value) &&
      Contents(Insert(m, p, v).value.root) == Contents(m.root)[p := v]
  {
    if |p| == m.k && m.root.Node? {
      InsertNodeFailsIffPresent(m.root, 0, m.k, p, v);
      if p !in Keys(m.root) {
        InsertNodeKeepsOrder(m.root, 0, m.k, p, v);
        InsertNodeContents(m.root, 0, m.k, p, v);
      }
    }
  }

  // ---------------------------------------------------------------------
  // Get: the search finds exactly the contents

  /** A key other than the root's, absent from one subtree, is looked up in
      the other subtree `sub`. */
  lemma ContentsBelow<V>(t: Tree<V>, sub: Tree<V>, q: Position)
    requires t.Node? && q != t.position
    requires sub == t.left || sub == t.right
    requires q !in Keys(if sub == t.left then t.right else t.left)
    ensures q in Contents(t) <==> q in Contents(sub)
    ensures q in Contents(sub) ==> Contents(t)[q] == Contents(sub)[q]
  {
  }

  /** In a valid tree a search with a query of the right length never
      throws and finds the value stored at the query position, if any. */
  lemma {:induction false} FindNodeContents<V>(t: Tree<V>, depth: nat, k: int, q: Position)
    requires KeysHaveLength(t, k) && Unique(t) && Ordered(t, depth, k)
    requires |q| == k
    ensures FindNode(t, depth, k, q) == Success(if q in Contents(t) then Some(Contents(t)[q]) else None)
    decreases t
  {
    match t
    case Nil =>
    case Node(pos, val, l, r) =>
      if q != pos {
        var dim := depth % k;
        if q[dim] < pos[dim] {
          AtLeastMember(r, dim, pos[dim], q);
          assert FindNode(t, depth, k, q) == FindNode(l, depth + 1, k, q);
          FindNodeContents(l, depth + 1, k, q);
          ContentsBelow(t, l, q);
        } else {
          BelowMember(l, dim, pos[dim], q);
          assert FindNode(t, depth, k, q) == FindNode(r, depth + 1, k, q);
          FindNodeContents(r, depth + 1, k, q);
          ContentsBelow(t, r, q);
        }
      }
  }

  /** `Get` on a valid map is lookup in its contents, `default(V)` when the
      position is absent. */
  lemma GetSpec<V>(m: KDMap<V>, q: Position, absent: V)
    requires Valid(m)
    requires |q| == m.k
    ensures Get(m, q, absent) == Success(if q in Contents(m.root) then Contents(m.root)[q] else absent)
  {
    FindNodeContents(m.root, 0, m.k, q);
  }

  /** After a successful `Insert(p, v)`, `Get(p)` returns `v` and every other
      position of the right length gets what it got before. */
  lemma GetAfterInsert<V>(m: KDMap<V>, p: Position, v: V, q: Position, absent: V)
    requires Valid(m)
    requires Insert(m, p, v).Success?
    requires |q| == m.k
    ensures Get(Insert(m, p, v).value, q, absent) == if q == p then Success(v) else Get(m, q, absent)
  {
    InsertSpec(m, p, v);
    GetSpec(m, q, absent);
    GetSpec(Insert(m, p, v).value, q, absent);
  }

  // ---------------------------------------------------------------------
  // Queries the search cannot answer

  /** With `k == 0` the only storable position is the empty one; a search
      for any other position reaches `depth % 0` and throws. */
  lemma GetZeroDimensions<V>(m: KDMap<V>, q: Position, absent: V)
    requires Valid(m) && m.k == 0 && m.root.Node?
    requires q != []
    ensures Get(m, q, absent) == Failure(DivideByZeroException)
  {
    assert m.root.position in Keys(m.root);
  }

  /** An empty query against a non-empty map with `k > 0` indexes past its
      end at the root. */
  lemma GetEmptyQuery<V>(m: KDMap<V>, absent: V)
    requires Valid(m) && m.k > 0 && m.root.Node?
    ensures Get(m, [], absent) == Failure(IndexOutOfRangeException)
  {
    assert m.root.position in Keys(m.root);
  }

  /** An insertion can change `Get` for a query shorter than `k`: with
      `k == 2` and `[5, 5]` stored, the query `[7]` runs off the tree and
      yields the default; once `[6, 0]` hangs right of the root, the search
      reaches it at depth 1 and indexes `[7]` at dimension 1. */
  lemma ShortQueryChangesAfterInsert(v: int, w: int, absent: int)
    ensures var m := KDMap(2, Node([5, 5], v, Nil, Nil));
      Get(m, [7], absent) == Success(absent) &&
      Insert(m, [6, 0], w).Success? &&
      Get(Insert(m, [6, 0], w).value, [7], absent) == Failure(IndexOutOfRangeException)
  {
    var m := KDMap(2, Node([5, 5], v, Nil, Nil));
    assert FindNode(m.root, 0, 2, [7]) == FindNode(Nil, 1, 2, [7]);
    var m' := KDMap(2, Node([5, 5], v, Nil, Node([6, 0], w, Nil, Nil)));
    assert Insert(m, [6, 0], w) == Success(m');
    assert FindNode(m'.root, 0, 2, [7]) == FindNode(m'.root.right, 1, 2, [7]);
  }
}
