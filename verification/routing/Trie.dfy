/** The mutable route trie: literal, parameter, star and glob edges. */
module RouteTrie {
  import opened Collections
  import opened Paths
  import opened Glob

  type Path = seq<string>

  const PARAM := "$"
  const STAR := "*"

  /** An edge that is matched as a wildcard pattern. */
  predicate IsGlob(edge: string) {
    edge != STAR && '*' in edge
  }

  function Front(p: Path): Path
    requires p != []
  {
    p[..|p| - 1]
  }

  function Last(p: Path): string
    requires p != []
  {
    p[|p| - 1]
  }

  /** a stands somewhere in front of b. */
  ghost predicate Before(xs: seq<string>, a: string, b: string) {
    exists i, j :: 0 <= i < j < |xs| && xs[i] == a && xs[j] == b
  }

  /** Takes the first occurrence of key out and leaves the others in order. */
  method RemoveGlobChild(globChildren: seq<string>, key: string) returns (left: seq<string>)
    requires Distinct(globChildren)
    ensures Distinct(left)
    ensures forall k :: k in left <==> k in globChildren && k != key
    ensures key !in globChildren ==> left == globChildren
    ensures forall a, b | Before(left, a, b) :: Before(globChildren, a, b)
  {
    for i := 0 to |globChildren|
      invariant key !in globChildren[..i]
    {
      if globChildren[i] == key {
        left := globChildren[..i] + globChildren[i + 1..];
        assert globChildren == globChildren[..i] + [key] + globChildren[i + 1..];
        OrderWithout(globChildren, i);
        return;
      }
    }
    assert globChildren[..|globChildren|] == globChildren;
    return globChildren;
  }

  lemma OrderWithout(xs: seq<string>, i: nat)
    requires i < |xs|
    ensures forall a, b | Before(xs[..i] + xs[i + 1..], a, b) :: Before(xs, a, b)
  {
    var left := xs[..i] + xs[i + 1..];
    forall a, b | Before(left, a, b) ensures Before(xs, a, b) {
      var m, n :| 0 <= m < n < |left| && left[m] == a && left[n] == b;
      var m', n' := if m < i then m else m + 1, if n < i then n else n + 1;
      assert xs[m'] == a && xs[n'] == b;
    }
  }

  // ----- the trie as a value: what every node holds, by the path that leads to it

  datatype Node = Node(isEnd: bool, raw: string, kids: map<string, Trie>, globs: seq<string>)

  type Nodes = map<Path, Trie>
  type Infos = map<Path, Node>

  /** One object per path, linked along its last edge. */
  ghost predicate TreeOk(root: Trie, nodes: Nodes, info: Infos) {
    && info.Keys == nodes.Keys
    && [] in nodes && nodes[[]] == root
    && OneEach(nodes)
    && (forall p | p in nodes && p != [] :: Linked(nodes, info, p))
    && (forall p, k | p in info && k in info[p].kids :: p + [k] in nodes)
  }

  ghost predicate OneEach(nodes: Nodes) {
    forall p, q | p in nodes && q in nodes && p != q :: nodes[p] != nodes[q]
  }

  lemma Apart(nodes: Nodes, p: Path, q: Path)
    requires OneEach(nodes) && p in nodes && q in nodes && p != q
    ensures nodes[p] != nodes[q]
  {
  }

  ghost predicate Linked(nodes: Nodes, info: Infos, p: Path)
    requires p != [] && p in nodes
  {
    Front(p) in info && Last(p) in info[Front(p)].kids && info[Front(p)].kids[Last(p)] == nodes[p]
  }

  /** What a node keeps: its glob list is its glob edges, and only ends carry a route. */
  ghost predicate InfoOk(i: Node) {
    && Distinct(i.globs)
    && (forall k :: k in i.globs <==> k in i.kids && IsGlob(k))
    && (!i.isEnd ==> i.raw == "")
  }

  ghost predicate InfosOk(info: Infos) {
    forall p | p in info :: InfoOk(info[p])
  }

  /** The routes stored, under their segments. */
  ghost function RoutesOf(info: Infos): map<Path, string> {
    map p | p in info && info[p].isEnd :: info[p].raw
  }

  /** Every leaf other than the root ends a route, except perhaps at one path. */
  ghost predicate PrunedBut(info: Infos, open: Path) {
    forall p | p in info && p != [] && p != open && info[p].kids == map[] :: info[p].isEnd
  }

  ghost predicate Pruned(info: Infos) {
    PrunedBut(info, [])
  }

  const LEAF := Node(false, "", map[], [])

  function WithKid(i: Node, seg: string, child: Trie): Node {
    i.(kids := i.kids[seg := child], globs := if IsGlob(seg) then i.globs + [seg] else i.globs)
  }

  /** The globs at a path, in the order in which a lookup tries them. */
  function GlobsIn(info: Infos, p: Path): seq<string> {
    if p in info then info[p].globs else []
  }

  /** A new child under seg below p is tried after the globs that were there. */
  ghost predicate GlobAdded(before: Infos, after: Infos, p: Path, seg: string) {
    forall q :: GlobsIn(after, q) == GlobsIn(before, q)
      + if q == p && IsGlob(seg) && seg !in GlobsIn(before, p) then [seg] else []
  }

  /** The globs at q once a path is laid out: its next segment comes last, if that is a new glob. */
  function GlobsWith(globs: seq<string>, q: Path, path: Path): seq<string> {
    globs + if q < path && IsGlob(path[|q|]) && path[|q|] !in globs then [path[|q|]] else []
  }

  ghost predicate GlobsLaid(before: Infos, after: Infos, path: Path) {
    forall q :: GlobsIn(after, q) == GlobsWith(GlobsIn(before, q), q, path)
  }

  lemma NothingLaid(info: Infos)
    ensures GlobsLaid(info, info, [])
  {
  }

  lemma LaidOn(before: Infos, between: Infos, after: Infos, at: Path, seg: string)
    requires GlobsLaid(before, between, at) && GlobAdded(between, after, at, seg)
    ensures GlobsLaid(before, after, at + [seg])
  {
    hide IsGlob, GlobsIn;
    forall q ensures GlobsIn(after, q) == GlobsWith(GlobsIn(before, q), q, at + [seg]) {
      var path := at + [seg];
      assert GlobsIn(between, q) == GlobsWith(GlobsIn(before, q), q, at);
      if q < path {
        assert q == at || q < at by {
          assert q == path[..|q|];
        }
        assert path[|q|] == if q == at then seg else at[|q|];
      } else {
        assert !(q < at) && q != at;
      }
    }
  }

  /** What comes before what among the globs at a path was so before. */
  ghost predicate OrderKept(before: Infos, after: Infos) {
    forall q, a, b | Before(GlobsIn(after, q), a, b) :: Before(GlobsIn(before, q), a, b)
  }

  lemma OrderSame(before: Infos, after: Infos)
    requires forall q :: GlobsIn(after, q) == GlobsIn(before, q)
    ensures OrderKept(before, after)
  {
    hide Before;
  }

  lemma OrderOn(before: Infos, between: Infos, after: Infos)
    requires OrderKept(before, between) && OrderKept(between, after)
    ensures OrderKept(before, after)
  {
    hide Before, GlobsIn;
  }

  lemma ExtendPath(p: Path, k: string)
    ensures p + [k] != [] && Front(p + [k]) == p && Last(p + [k]) == k
    ensures p + [k] != p
  {
  }

  lemma PathEnds(q: Path)
    requires q != []
    ensures Front(q) + [Last(q)] == q
  {
  }

  /** info with a new leaf under seg below p. */
  function Grown(info: Infos, p: Path, seg: string, child: Trie): Infos
    requires p in info
  {
    info[p := WithKid(info[p], seg, child)][p + [seg] := LEAF]
  }

  lemma GrownGlobs(info: Infos, p: Path, seg: string, child: Trie)
    requires InfosOk(info) && p in info && seg !in info[p].kids && p + [seg] !in info
    ensures GlobAdded(info, Grown(info, p, seg, child), p, seg)
  {
    hide IsGlob;
    assert InfoOk(info[p]);
    ExtendPath(p, seg);
  }

  lemma KnownGlob(info: Infos, p: Path, seg: string)
    requires InfosOk(info) && p in info && seg in info[p].kids
    ensures GlobAdded(info, info, p, seg)
  {
    hide IsGlob;
    assert InfoOk(info[p]);
  }

  lemma NotThere(root: Trie, nodes: Nodes, info: Infos, p: Path, seg: string)
    requires TreeOk(root, nodes, info) && p in info
    ensures p + [seg] in nodes <==> seg in info[p].kids
    ensures seg in info[p].kids ==> info[p].kids[seg] == nodes[p + [seg]]
  {
    ExtendPath(p, seg);
    if p + [seg] in nodes {
      assert Linked(nodes, info, p + [seg]);
    }
  }

  lemma GrownLinked(root: Trie, nodes: Nodes, info: Infos, p: Path, seg: string, child: Trie, r: Path)
    requires TreeOk(root, nodes, info) && p in info && seg !in info[p].kids
    requires r != [] && (r in nodes || r == p + [seg])
    ensures Linked(nodes[p + [seg] := child], Grown(info, p, seg, child), r)
  {
    var q := p + [seg];
    NotThere(root, nodes, info, p, seg);
    ExtendPath(p, seg);
    if r == q {
      assert Last(r) in Grown(info, p, seg, child)[p].kids;
    } else {
      assert Linked(nodes, info, r);
      PathEnds(r);
      assert Front(r) != q;
      if Front(r) == p {
        assert Last(r) != seg;
      }
    }
  }

  lemma GrownTree(root: Trie, nodes: Nodes, info: Infos, p: Path, seg: string, child: Trie)
    requires TreeOk(root, nodes, info) && p in info && seg !in info[p].kids && child !in nodes.Values
    ensures TreeOk(root, nodes[p + [seg] := child], Grown(info, p, seg, child))
  {
    hide Linked, WithKid;
    var q := p + [seg];
    NotThere(root, nodes, info, p, seg);
    ExtendPath(p, seg);
    var nodes', info' := nodes[q := child], Grown(info, p, seg, child);
    forall r | r in nodes' && r != [] ensures Linked(nodes', info', r) {
      GrownLinked(root, nodes, info, p, seg, child, r);
    }
    forall r, k | r in info' && k in info'[r].kids ensures r + [k] in nodes' {
      KidOfGrown(info, p, seg, child, r, k);
    }
    forall x, y | x in nodes' && y in nodes' && x != y ensures nodes'[x] != nodes'[y] {
      if x == q {
        assert nodes[y] in nodes.Values;
      } else if y == q {
        assert nodes[x] in nodes.Values;
      }
    }
  }

  lemma KidOfGrown(info: Infos, p: Path, seg: string, child: Trie, r: Path, k: string)
    requires p in info && r in Grown(info, p, seg, child) && k in Grown(info, p, seg, child)[r].kids
    ensures r + [k] == p + [seg] || (r in info && k in info[r].kids)
  {
  }

  lemma GrownInfos(info: Infos, p: Path, seg: string, child: Trie)
    requires InfosOk(info) && p in info && seg !in info[p].kids && p + [seg] !in info
    ensures InfosOk(Grown(info, p, seg, child))
    ensures RoutesOf(Grown(info, p, seg, child)) == RoutesOf(info)
    ensures PrunedBut(info, p) ==> PrunedBut(Grown(info, p, seg, child), p + [seg])
  {
    assert InfoOk(info[p]);
    assert InfoOk(WithKid(info[p], seg, child));
    ExtendPath(p, seg);
    GrownPruned(info, p, seg, child);
    hide InfoOk, PrunedBut;
  }

  lemma GrownPruned(info: Infos, p: Path, seg: string, child: Trie)
    requires p in info && p + [seg] !in info
    ensures PrunedBut(info, p) ==> PrunedBut(Grown(info, p, seg, child), p + [seg])
  {
    assert seg in WithKid(info[p], seg, child).kids;
    hide IsGlob;
    ExtendPath(p, seg);
  }

  class Trie {
    var isEnd: bool
    var raw: string
    var children: map<string, Trie>
    var globChildren: seq<string>

    /** On a root: every node below it, under the path that leads to it. */
    ghost var nodes: Nodes

    constructor ()
      ensures !isEnd && raw == "" && children == map[] && globChildren == []
      ensures nodes == map[[] := this] && Valid() && Routes() == map[] && Pruned(Info())
    {
      isEnd, raw, children, globChildren := false, "", map[], [];
      new;
      nodes := map[[] := this];
    }

    ghost function Here(): Node
      reads this
    {
      Node(isEnd, raw, children, globChildren)
    }

    ghost function Info(): Infos
      reads this, nodes.Values
    {
      map p | p in nodes :: nodes[p].Here()
    }

    ghost predicate Valid()
      reads this, nodes.Values
    {
      TreeOk(this, nodes, Info()) && InfosOk(Info())
    }

    ghost function Routes(): map<Path, string>
      reads this, nodes.Values
    {
      RoutesOf(Info())
    }

    /** The child under seg, made if it is not there; node is the one at p. */
    method ChildAt(node: Trie, seg: string, ghost p: Path) returns (child: Trie)
      requires Valid() && p in nodes && nodes[p] == node
      modifies node`children, node`globChildren, this`nodes
      ensures Valid() && p + [seg] in nodes && child == nodes[p + [seg]]
      ensures nodes == old(nodes) || (fresh(child) && nodes == old(nodes)[p + [seg] := child])
      ensures Routes() == old(Routes()) && GlobAdded(old(Info()), Info(), p, seg)
      ensures old(PrunedBut(Info(), p)) ==> PrunedBut(Info(), p + [seg])
    {
      hide TreeOk, InfosOk, PrunedBut, RoutesOf, GlobAdded;
      NotThere(this, nodes, Info(), p, seg);
      if seg !in node.children {
        ghost var info := Info();
        AddChild(node, seg, p);
        GrownGlobs(info, p, seg, node.children[seg]);
      } else {
        StillPruned(Info(), p, seg);
        KnownGlob(Info(), p, seg);
      }
      child := node.children[seg];
    }

    method AddChild(node: Trie, seg: string, ghost p: Path)
      requires Valid() && p in nodes && nodes[p] == node && seg !in node.children
      modifies node`children, node`globChildren, this`nodes
      ensures Valid() && p in nodes && nodes[p] == node && seg in node.children
      ensures fresh(node.children[seg]) && nodes == old(nodes)[p + [seg] := node.children[seg]]
      ensures Info() == Grown(old(Info()), p, seg, node.children[seg])
      ensures Routes() == old(Routes())
      ensures old(PrunedBut(Info(), p)) ==> PrunedBut(Info(), p + [seg])
    {
      hide TreeOk, InfosOk, PrunedBut, RoutesOf, Grown;
      ghost var info := Info();
      OneNodeEach(this, nodes, info);
      NotThere(this, nodes, info, p, seg);
      var child := new Trie();
      assert Info() == info;
      GrownTree(this, nodes, info, p, seg, child);
      GrownInfos(info, p, seg, child);
      Link(node, seg, child, p);
    }

    /** Hangs a new leaf under a node. */
    method Link(node: Trie, seg: string, child: Trie, ghost p: Path)
      requires p in nodes && nodes[p] == node && OneEach(nodes)
      requires p + [seg] !in nodes && child !in nodes.Values && child != this
      requires child.Here() == LEAF
      modifies node`children, node`globChildren, this`nodes
      ensures nodes == old(nodes)[p + [seg] := child]
      ensures seg in node.children && node.children[seg] == child
      ensures Info() == Grown(old(Info()), p, seg, child)
    {
      hide WithKid, OneEach, Info;
      ghost var info := Info();
      assert info.Keys == nodes.Keys by { InfoKeys(); }
      SetKid(node, seg, child, p);
      ghost var linked := Info();
      NameLeaf(child, p + [seg]);
      ExtendPath(p, seg);
    }

    lemma InfoKeys()
      ensures Info().Keys == nodes.Keys
    {
    }

    method SetKid(node: Trie, seg: string, child: Trie, ghost p: Path)
      requires p in nodes && nodes[p] == node && OneEach(nodes)
      modifies node`children, node`globChildren
      ensures node.children == old(node.children)[seg := child] && nodes == old(nodes)
      ensures p in old(Info()) && Info() == old(Info())[p := WithKid(old(Info())[p], seg, child)]
    {
      hide OneEach;
      ghost var info := Info();
      node.children := node.children[seg := child];
      if seg != STAR && '*' in seg {
        node.globChildren := node.globChildren + [seg];
      }
      forall q | q in nodes ensures Info()[q] == info[p := WithKid(info[p], seg, child)][q] {
        if q != p {
          Apart(nodes, p, q);
        }
      }
      SameInfos(Info(), info[p := WithKid(info[p], seg, child)]);
    }

    /** Sets what a node says about ending a route. */
    method SetEnd(node: Trie, isEnd: bool, raw: string, ghost p: Path)
      requires p in nodes && nodes[p] == node && OneEach(nodes)
      modifies node`isEnd, node`raw
      ensures nodes == old(nodes)
      ensures p in old(Info()) && Info() == old(Info())[p := old(Info())[p].(isEnd := isEnd, raw := raw)]
    {
      hide OneEach;
      ghost var info := Info();
      node.isEnd := isEnd;
      node.raw := raw;
      forall q | q in nodes ensures Info()[q] == info[p := info[p].(isEnd := isEnd, raw := raw)][q] {
        if q != p {
          Apart(nodes, p, q);
        }
      }
      SameInfos(Info(), info[p := info[p].(isEnd := isEnd, raw := raw)]);
    }

    method MarkEnd(node: Trie, raw: string, ghost p: Path)
      requires Valid() && p in nodes && nodes[p] == node
      modifies node`isEnd, node`raw
      ensures Valid() && nodes == old(nodes) && Routes() == old(Routes())[p := raw]
      ensures forall q :: GlobsIn(Info(), q) == GlobsIn(old(Info()), q)
      ensures old(PrunedBut(Info(), p)) ==> Pruned(Info())
    {
      hide TreeOk, InfosOk, PrunedBut, RoutesOf;
      OneNodeEach(this, nodes, Info());
      MarkedEnd(this, nodes, Info(), p, raw);
      SetEnd(node, true, raw, p);
    }

    lemma RootHere()
      requires Valid()
      ensures [] in nodes && nodes[[]] == this
    {
    }

    /** One step of an insertion: the child under seg, marked when it is the last. */
    method Lay(node: Trie, seg: string, isLast: bool, raw: string, ghost p: Path) returns (child: Trie)
      requires Valid() && p in nodes && nodes[p] == node
      modifies this, nodes.Values
      ensures Valid() && p + [seg] in nodes && child == nodes[p + [seg]]
      ensures forall t | t in nodes.Values :: t in old(nodes.Values) || fresh(t)
      ensures Routes() == if isLast then old(Routes())[p + [seg] := raw] else old(Routes())
      ensures GlobAdded(old(Info()), Info(), p, seg)
      ensures old(PrunedBut(Info(), p)) ==> if isLast then Pruned(Info()) else PrunedBut(Info(), p + [seg])
    {
      hide TreeOk, InfosOk, PrunedBut, RoutesOf, Info, GlobsIn;
      child := ChildAt(node, seg, p);
      if isLast {
        MarkEnd(child, raw, p + [seg]);
      }
    }

    /** Stores a route under the segments of its path; a path that is not closed only lays out its nodes. */
    method Insert(raw: string, insertedStr: string, sep: char)
      requires Valid()
      modifies this, nodes.Values
      ensures Valid() && (forall t | t in nodes.Values :: t in old(nodes.Values) || fresh(t))
      ensures Routes() == if Closed(insertedStr, sep) && Segments(insertedStr, sep) != []
                          then old(Routes())[Segments(insertedStr, sep) := raw] else old(Routes())
      ensures old(Pruned(Info())) && Closed(insertedStr, sep) ==> Pruned(Info())
      ensures GlobsLaid(old(Info()), Info(), Segments(insertedStr, sep))
    {
      hide TreeOk, InfosOk, PrunedBut, RoutesOf, Info, Segment, SegmentsFrom, Valid, Routes, Closed, IndexFrom;
      hide GlobsLaid, GlobAdded;
      ghost var info := Info();
      NothingLaid(info);
      ghost var before, wasPruned := Routes(), Pruned(Info());
      var node := this;
      var cursor := IndexFrom(insertedStr, sep, 0);
      var (seg, next) := Segment(insertedStr, sep, cursor);
      ghost var at: Path := [];
      ghost var ended := false;
      RootHere();
      FirstCursor(insertedStr, sep);
      WalkOn(insertedStr, sep, cursor);
      while next > -1
        invariant Valid() && at in nodes && nodes[at] == node
        invariant forall t | t in nodes.Values :: t in old(nodes.Values) || fresh(t)
        invariant (seg, next) == Segment(insertedStr, sep, cursor)
        invariant at + SegmentsFrom(insertedStr, sep, cursor) == Segments(insertedStr, sep)
        invariant Routes() == if ended then before[at := raw] else before
        invariant cursor == -1 || (0 <= cursor < |insertedStr| && insertedStr[cursor] == sep)
        invariant cursor == -1 ==> sep !in insertedStr && next == -1
        invariant ended <==> at != [] && cursor == |insertedStr| - 1
        invariant wasPruned ==> if ended then Pruned(Info()) else PrunedBut(Info(), at)
        invariant GlobsLaid(info, Info(), at)
        decreases if next == -1 then 0 else |insertedStr| - cursor + 1
      {
        WalkOn(insertedStr, sep, cursor);
        Shift(at, seg, SegmentsFrom(insertedStr, sep, next));
        ghost var between := Info();
        node := Lay(node, seg, next == |insertedStr| - 1, raw, at);
        LaidOn(info, between, Info(), at, seg);
        at := at + [seg];
        ended := next == |insertedStr| - 1;
        cursor := next;
        var step := Segment(insertedStr, sep, cursor);
        seg, next := step.0, step.1;
      }
      WalkOn(insertedStr, sep, cursor);
      LastCursor(insertedStr, sep, cursor);
      assert at == Segments(insertedStr, sep);
      assert Closed(insertedStr, sep) && !ended ==> at == [];
    }

    /** Takes a route out and then every node above it that has become useless. */
    method Remove(removedStr: string, sep: char) returns (removed: bool)
      requires Valid()
      modifies nodes.Values
      ensures Valid() && nodes.Values <= old(nodes.Values)
      ensures removed <==> Segments(removedStr, sep) != [] && Segments(removedStr, sep) in old(Routes())
      ensures Routes() == if removed then old(Routes()) - {Segments(removedStr, sep)} else old(Routes())
      ensures !removed ==> Info() == old(Info())
      ensures old(Pruned(Info())) ==> Pruned(Info())
      ensures OrderKept(old(Info()), Info())
    {
      hide TreeOk, InfosOk, PrunedBut, RoutesOf, Info, Valid, Routes, Segment, SegmentsFrom, IndexFrom, OrderKept;
      ghost var info := Info();
      OrderSame(info, info);
      var found, node, chain := Trace(removedStr, sep);
      ghost var at := Segments(removedStr, sep);
      RoutesHere(at);
      if !found || |chain| == 0 || !node.isEnd {
        return false;
      }
      ClearEnd(node, at);
      OrderSame(info, Info());
      ghost var cleared := Info();
      Prune(chain, at);
      OrderOn(info, cleared, Info());
      return true;
    }

    /** The chain of links that leads along the segments, if all of them are there. */
    method Trace(path: string, sep: char) returns (found: bool, node: Trie, chain: seq<(Trie, string)>)
      requires Valid()
      ensures found <==> Segments(path, sep) in nodes
      ensures found ==> node == nodes[Segments(path, sep)] && Chained(nodes, chain, Segments(path, sep))
    {
      hide TreeOk, InfosOk, Info, Valid, Segment, SegmentsFrom, IndexFrom, Segments, Chained;
      node := this;
      chain := [];
      var cursor := IndexFrom(path, sep, 0);
      var (seg, next) := Segment(path, sep, cursor);
      ghost var at: Path := [];
      RootHere();
      NoChain(nodes, path, sep);
      while next > -1
        invariant at in nodes && nodes[at] == node && Chained(nodes, chain, at)
        invariant (seg, next) == Segment(path, sep, cursor)
        invariant at + SegmentsFrom(path, sep, cursor) == Segments(path, sep)
        decreases if next == -1 then 0 else |path| - cursor + 1
      {
        WalkOn(path, sep, cursor);
        ghost var rest := SegmentsFrom(path, sep, next);
        Shift(at, seg, rest);
        ChildHere(at, seg);
        if seg !in node.children {
          Beyond(at + [seg], rest);
          return false, node, chain;
        }
        MoreChain(nodes, chain, at, seg);
        chain := chain + [(node, seg)];
        node := node.children[seg];
        at := at + [seg];
        cursor := next;
        var step := Segment(path, sep, cursor);
        seg, next := step.0, step.1;
      }
      WalkOn(path, sep, cursor);
      assert at == Segments(path, sep);
      found := true;
    }

    lemma ChildHere(p: Path, seg: string)
      requires Valid() && p in nodes
      ensures p + [seg] in nodes <==> seg in nodes[p].children
      ensures seg in nodes[p].children ==> nodes[p].children[seg] == nodes[p + [seg]]
    {
      hide InfosOk;
      NotThere(this, nodes, Info(), p, seg);
    }

    /** No node lies behind a path that leads nowhere. */
    lemma {:induction false} Beyond(p: Path, rest: Path)
      requires Valid() && p !in nodes
      ensures p + rest !in nodes
      decreases |rest|
    {
      hide TreeOk, InfosOk;
      if rest == [] {
        assert p + rest == p;
      } else {
        Beyond(p, Front(rest));
        assert p + rest == (p + Front(rest)) + [Last(rest)];
        if p + rest in nodes {
          Above(p + Front(rest), Last(rest));
        }
      }
    }

    lemma Above(p: Path, k: string)
      requires Valid() && p + [k] in nodes
      ensures p in nodes
    {
      hide InfosOk;
      ExtendPath(p, k);
      assert Linked(nodes, Info(), p + [k]);
    }

    lemma RoutesHere(p: Path)
      requires Valid()
      ensures p in Routes() <==> p in nodes && nodes[p].isEnd
      ensures p in Routes() ==> Routes()[p] == nodes[p].raw
    {
    }

    method ClearEnd(node: Trie, ghost p: Path)
      requires Valid() && p in nodes && nodes[p] == node
      modifies node`isEnd, node`raw
      ensures Valid() && nodes == old(nodes) && Routes() == old(Routes()) - {p}
      ensures forall q :: GlobsIn(Info(), q) == GlobsIn(old(Info()), q)
      ensures old(Pruned(Info())) ==> PrunedBut(Info(), p)
    {
      hide TreeOk, InfosOk, PrunedBut, RoutesOf;
      OneNodeEach(this, nodes, Info());
      ClearedEnd(this, nodes, Info(), p);
      SetEnd(node, false, "", p);
    }

    /** Goes up the chain and cuts off nodes that neither end a route nor lead on. */
    method Prune(chain: seq<(Trie, string)>, ghost at: Path)
      requires Valid() && at in nodes && Chained(nodes, chain, at)
      modifies nodes.Values
      ensures Valid() && Routes() == old(Routes()) && nodes.Values <= old(nodes.Values)
      ensures old(PrunedBut(Info(), at)) ==> Pruned(Info())
      ensures OrderKept(old(Info()), Info())
    {
      hide TreeOk, InfosOk, PrunedBut, RoutesOf, Info, Valid, Routes, Chained, OrderKept;
      ghost var info := Info();
      OrderSame(info, info);
      ghost var before, wasPruned := Routes(), PrunedBut(Info(), at);
      var i := |chain|;
      ChainTop(nodes, chain, at);
      RootHere();
      while i > 0
        invariant 0 <= i <= |chain| == |at| && Valid() && at[..i] in nodes && Chained(nodes, chain[..i], at[..i])
        invariant nodes.Values <= old(nodes.Values)
        invariant Routes() == before && (wasPruned ==> PrunedBut(Info(), at[..i])) && OrderKept(info, Info())
      {
        i := i - 1;
        ghost var p := at[..i];
        ChainLink(nodes, chain, at, i);
        var (parent, key) := chain[i];
        ChildHere(p, key);
        var child := parent.children[key];
        if child.isEnd || |child.children| > 0 {
          EnoughHere(p + [key]);
          return;
        }
        ChainKept(nodes, chain[..i], p, p + [key]);
        ghost var between := Info();
        Unlink(parent, key, child, p);
        OrderOn(info, between, Info());
      }
    }

    lemma EnoughHere(q: Path)
      requires Valid() && q in nodes && (nodes[q].isEnd || nodes[q].children != map[])
      ensures PrunedBut(Info(), q) ==> Pruned(Info())
    {
    }

    /** Cuts a leaf that ends nothing off its parent. */
    method Unlink(parent: Trie, key: string, child: Trie, ghost p: Path)
      requires Valid() && p in nodes && nodes[p] == parent && p + [key] in nodes && nodes[p + [key]] == child
      requires !child.isEnd && child.children == map[]
      modifies parent`children, parent`globChildren, this`nodes
      ensures Valid() && nodes == old(nodes) - {p + [key]} && p in nodes
      ensures Routes() == old(Routes()) && OrderKept(old(Info()), Info())
      ensures old(PrunedBut(Info(), p + [key])) ==> PrunedBut(Info(), p)
    {
      hide TreeOk, InfosOk, PrunedBut, RoutesOf, Shrunk, OrderKept, Before;
      ghost var info := Info();
      OneNodeEach(this, nodes, info);
      ExtendPath(p, key);
      assert InfoOk(info[p]) by { InfoAt(info, p); }
      var globs := RemoveGlobChild(parent.globChildren, key);
      ShrunkTree(this, nodes, info, p, key, globs);
      ShrunkInfos(info, p, key, globs);
      ShrunkOrder(info, p, key, globs);
      DropKid(parent, key, globs, p);
      ForgetLeaf(p + [key]);
      ShrunkIs(info, p, key, globs);
    }

    method DropKid(parent: Trie, key: string, globs: seq<string>, ghost p: Path)
      requires p in nodes && nodes[p] == parent && OneEach(nodes)
      modifies parent`children, parent`globChildren
      ensures nodes == old(nodes)
      ensures p in old(Info()) && Info() == old(Info())[p := WithoutKid(old(Info())[p], key, globs)]
    {
      hide OneEach;
      ghost var info := Info();
      parent.children := parent.children - {key};
      parent.globChildren := globs;
      forall q | q in nodes ensures Info()[q] == info[p := WithoutKid(info[p], key, globs)][q] {
        if q != p {
          Apart(nodes, p, q);
        }
      }
      SameInfos(Info(), info[p := WithoutKid(info[p], key, globs)]);
    }

    ghost method ForgetLeaf(q: Path)
      modifies `nodes
      ensures nodes == old(nodes) - {q} && Info() == old(Info()) - {q}
    {
      nodes := nodes - {q};
    }

    /** The full match, the deepest star on the way, and the captured segments, as one greedy walk finds them. */
    method Find(path: string, sep: char, supportParams: bool)
      returns (matchedRaw: string, wildcardRaw: string, paramVals: seq<string>)
      requires Valid()
      ensures exists walk :: Answers(Info(), walk, path, sep, supportParams, matchedRaw, wildcardRaw, paramVals)
    {
      hide Answers, Valid, Info;
      ghost var walk;
      matchedRaw, wildcardRaw, paramVals, walk := Walk(path, sep, supportParams);
    }

    /** Walks the path greedily, one edge per segment, and never goes back. */
    method Walk(path: string, sep: char, supportParams: bool)
      returns (matchedRaw: string, wildcardRaw: string, paramVals: seq<string>, ghost walk: Path)
      requires Valid()
      ensures Answers(Info(), walk, path, sep, supportParams, matchedRaw, wildcardRaw, paramVals)
    {
      hide TreeOk, InfosOk, Segment, IndexFrom, Info, Valid, Seen, Along, Stuck, Closed, StarOr, Segments, Answers;
      var node := this;
      wildcardRaw, paramVals := "", [];
      var cursor := IndexFrom(path, sep, 0);
      var (seg, next) := Segment(path, sep, cursor);
      walk := [];
      ghost var info, segs := Info(), Segments(path, sep);
      RootHere();
      HereIs([]);
      NothingSeen(info, segs, supportParams);
      AlongFirst(path, sep);
      while next > -1
        invariant walk in nodes && nodes[walk] == node && Seen(info, walk, segs, supportParams, wildcardRaw, paramVals)
        invariant (seg, next) == Segment(path, sep, cursor) && Along(path, sep, |walk|, cursor)
        decreases if next == -1 then 0 else |path| - cursor + 1
      {
        AlongNext(path, sep, |walk|, cursor);
        var found, edge, star, vals := Step(node, seg, supportParams, wildcardRaw, paramVals, walk, segs);
        if !found {
          StuckAnswers(info, walk, path, sep, supportParams, wildcardRaw, paramVals);
          return "", wildcardRaw, paramVals, walk;
        }
        node, wildcardRaw, paramVals := node.children[edge], star, vals;
        walk := walk + [edge];
        if next == |path| - 1 {
          HereIs(walk);
          FullAnswers(info, walk, path, sep, supportParams, wildcardRaw, paramVals);
          wildcardRaw := StarEndRaw(node, wildcardRaw, walk);
          return node.raw, wildcardRaw, paramVals, walk;
        }
        cursor := next;
        var step := Segment(path, sep, cursor);
        seg, next := step.0, step.1;
      }
      AlongEnd(path, sep, |walk|, cursor);
      OpenAnswers(info, walk, path, sep, supportParams, wildcardRaw, paramVals);
      matchedRaw := "";
    }

    /** One step: the edge taken, the deepest star seen by then and the values captured by then. */
    method Step(node: Trie, seg: string, supportParams: bool, wildcardRaw: string, paramVals: seq<string>,
                ghost walk: Path, ghost segs: seq<string>)
      returns (found: bool, edge: string, star: string, vals: seq<string>)
      requires Valid() && walk in nodes && nodes[walk] == node
      requires Seen(Info(), walk, segs, supportParams, wildcardRaw, paramVals)
      requires |walk| < |segs| && segs[|walk|] == seg
      ensures walk in Info()
      ensures !found ==> Stuck(Info()[walk], seg, supportParams)
      ensures found ==>
                var w := walk + [edge];
                && edge in node.children && w in nodes && nodes[w] == node.children[edge]
                && Seen(Info(), w, segs, supportParams, star, vals)
    {
      hide TreeOk, InfosOk, Info, Valid, Walks, Captured, StarRaw, Chosen, Stuck, StarOr;
      HereIs(walk);
      star, vals := wildcardRaw, paramVals;
      found, edge := Choose(node, seg, supportParams);
      if found {
        ChildHere(walk, edge);
        HereIs(walk + [edge]);
        StepTo(Info(), walk, segs, edge, supportParams);
        star := StarEndRaw(node, wildcardRaw, walk);
        if edge == PARAM && seg != PARAM {
          vals := vals + [seg];
        }
      }
    }

    /** The edge taken for a segment: itself, the parameter, the star, or the first glob that matches. */
    method Choose(node: Trie, seg: string, supportParams: bool) returns (found: bool, edge: string)
      ensures found ==> edge in node.children && Chosen(node.Here(), seg, supportParams, edge)
      ensures !found ==> Stuck(node.Here(), seg, supportParams)
      requires InfoOk(node.Here())
    {
      if seg in node.children {
        return true, seg;
      }
      if supportParams && PARAM in node.children {
        return true, PARAM;
      }
      if STAR in node.children {
        return true, STAR;
      }
      var globs := node.globChildren;
      for i := 0 to |globs|
        invariant forall k | 0 <= k < i :: !Globs(seg, globs[k])
      {
        var ok := MatchWildcard(seg, globs[i]);
        if ok {
          assert globs[i] in globs;
          return true, globs[i];
        }
      }
      return false, "";
    }

    /** The route of the star below a node, or what was remembered before. */
    method StarEndRaw(node: Trie, before: string, ghost p: Path) returns (raw: string)
      requires Valid() && p in nodes && nodes[p] == node
      ensures raw == StarOr(Info(), p, before)
    {
      hide TreeOk, InfosOk;
      ChildHere(p, STAR);
      if STAR in node.children && node.children[STAR].isEnd {
        return node.children[STAR].raw;
      }
      return before;
    }

    lemma HereIs(p: Path)
      requires Valid() && p in nodes
      ensures p in Info() && Info()[p] == nodes[p].Here() && InfoOk(nodes[p].Here())
    {
      hide TreeOk;
    }

    ghost method NameLeaf(child: Trie, q: Path)
      requires q !in nodes && child != this && child.Here() == LEAF
      modifies `nodes
      ensures nodes == old(nodes)[q := child] && Info() == old(Info())[q := LEAF]
    {
      nodes := nodes[q := child];
    }
  }

  lemma SameInfos(a: Infos, b: Infos)
    requires a.Keys == b.Keys && forall p | p in a :: a[p] == b[p]
    ensures a == b
  {
  }

  /** Every link of the chain starts at the node its path leads to. */
  ghost predicate Chained(nodes: Nodes, chain: seq<(Trie, string)>, at: Path) {
    |chain| == |at| && forall i | 0 <= i < |at| :: at[..i] in nodes && chain[i] == (nodes[at[..i]], at[i])
  }

  lemma NoChain(nodes: Nodes, path: string, sep: char)
    ensures Chained(nodes, [], [])
    ensures [] + SegmentsFrom(path, sep, IndexFrom(path, sep, 0)) == Segments(path, sep)
  {
    hide SegmentsFrom, IndexFrom;
  }

  lemma MoreChain(nodes: Nodes, chain: seq<(Trie, string)>, at: Path, seg: string)
    requires Chained(nodes, chain, at) && at in nodes
    ensures Chained(nodes, chain + [(nodes[at], seg)], at + [seg])
  {
    var at', chain' := at + [seg], chain + [(nodes[at], seg)];
    forall i | 0 <= i < |at'| ensures at'[..i] in nodes && chain'[i] == (nodes[at'[..i]], at'[i]) {
      assert at'[..i] == at[..i];
      assert at[..|at|] == at;
    }
  }

  lemma ChainTop(nodes: Nodes, chain: seq<(Trie, string)>, at: Path)
    requires Chained(nodes, chain, at)
    ensures |chain| == |at| && chain[..|chain|] == chain && at[..|at|] == at
  {
  }

  lemma ChainLink(nodes: Nodes, chain: seq<(Trie, string)>, at: Path, i: nat)
    requires |chain| == |at| && i < |at| && Chained(nodes, chain[..i + 1], at[..i + 1])
    ensures at[..i] in nodes && chain[i] == (nodes[at[..i]], at[i]) && at[..i + 1] == at[..i] + [at[i]]
    ensures Chained(nodes, chain[..i], at[..i])
  {
    assert at[..i + 1][..i] == at[..i];
    forall j | 0 <= j < i ensures at[..i][..j] in nodes && chain[j] == (nodes[at[..i][..j]], at[j]) {
      assert at[..i][..j] == at[..j] == at[..i + 1][..j];
      assert chain[..i + 1][j] == chain[j] && at[..i + 1][j] == at[j];
    }
  }

  lemma ChainKept(nodes: Nodes, chain: seq<(Trie, string)>, at: Path, q: Path)
    requires Chained(nodes, chain, at) && |q| > |at|
    ensures Chained(nodes - {q}, chain, at)
  {
    forall i | 0 <= i < |at| ensures at[..i] in nodes - {q} && chain[i] == (nodes[at[..i]], at[i]) {
      assert |at[..i]| == i;
    }
  }

  function WithoutKid(i: Node, key: string, globs: seq<string>): Node {
    i.(kids := i.kids - {key}, globs := globs)
  }

  /** info without the leaf under key below p. */
  function Shrunk(info: Infos, p: Path, key: string, globs: seq<string>): Infos
    requires p in info
  {
    info[p := WithoutKid(info[p], key, globs)] - {p + [key]}
  }

  lemma ShrunkIs(info: Infos, p: Path, key: string, globs: seq<string>)
    requires p in info
    ensures Shrunk(info, p, key, globs) == info[p := WithoutKid(info[p], key, globs)] - {p + [key]}
  {
  }

  lemma InfoAt(info: Infos, p: Path)
    requires InfosOk(info) && p in info
    ensures InfoOk(info[p])
  {
  }

  lemma ShrunkLinked(root: Trie, nodes: Nodes, info: Infos, p: Path, key: string, globs: seq<string>, r: Path)
    requires TreeOk(root, nodes, info) && p in nodes && p + [key] in nodes && info[p + [key]].kids == map[]
    requires r in nodes && r != [] && r != p + [key]
    ensures Linked(nodes - {p + [key]}, Shrunk(info, p, key, globs), r)
  {
    hide OneEach, Shrunk;
    LeafLeadsNowhere(nodes, info, p + [key], r);
    PathEnds(r);
    ShrunkAt(info, p, key, globs, Front(r), Last(r));
  }

  lemma ShrunkAt(info: Infos, p: Path, key: string, globs: seq<string>, q: Path, k: string)
    requires p in info && q in info && k in info[q].kids && q != p + [key] && q + [k] != p + [key]
    ensures var info' := Shrunk(info, p, key, globs);
            q in info' && k in info'[q].kids && info'[q].kids[k] == info[q].kids[k]
  {
  }

  lemma LeafLeadsNowhere(nodes: Nodes, info: Infos, q: Path, r: Path)
    requires q in info && info[q].kids == map[] && r != [] && r in nodes && Linked(nodes, info, r)
    ensures Front(r) != q
  {
  }

  lemma ShrunkTree(root: Trie, nodes: Nodes, info: Infos, p: Path, key: string, globs: seq<string>)
    requires TreeOk(root, nodes, info) && p in nodes && p + [key] in nodes && info[p + [key]].kids == map[]
    ensures TreeOk(root, nodes - {p + [key]}, Shrunk(info, p, key, globs))
  {
    hide Linked;
    var q := p + [key];
    ExtendPath(p, key);
    var nodes', info' := nodes - {q}, Shrunk(info, p, key, globs);
    forall r | r in nodes' && r != [] ensures Linked(nodes', info', r) {
      ShrunkLinked(root, nodes, info, p, key, globs, r);
    }
    forall r, k | r in info' && k in info'[r].kids ensures r + [k] in nodes' {
      KidOfShrunk(info, p, key, globs, r, k);
    }
  }

  lemma KidOfShrunk(info: Infos, p: Path, key: string, globs: seq<string>, r: Path, k: string)
    requires p in info && r in Shrunk(info, p, key, globs) && k in Shrunk(info, p, key, globs)[r].kids
    ensures r in info && k in info[r].kids && r + [k] != p + [key]
  {
    ExtendPath(p, key);
    ExtendPath(r, k);
  }

  lemma ShrunkInfos(info: Infos, p: Path, key: string, globs: seq<string>)
    requires InfosOk(info) && p in info && p + [key] in info && !info[p + [key]].isEnd
    requires Distinct(globs) && forall k :: k in globs <==> k in info[p].globs && k != key
    ensures InfosOk(Shrunk(info, p, key, globs))
    ensures RoutesOf(Shrunk(info, p, key, globs)) == RoutesOf(info)
    ensures PrunedBut(info, p + [key]) ==> PrunedBut(Shrunk(info, p, key, globs), p)
  {
    ExtendPath(p, key);
    assert InfoOk(info[p]);
    assert InfoOk(WithoutKid(info[p], key, globs));
  }

  lemma ShrunkOrder(info: Infos, p: Path, key: string, globs: seq<string>)
    requires p in info && forall a, b | Before(globs, a, b) :: Before(info[p].globs, a, b)
    ensures OrderKept(info, Shrunk(info, p, key, globs))
  {
    hide Before;
    forall q, a, b | Before(GlobsIn(Shrunk(info, p, key, globs), q), a, b) ensures Before(GlobsIn(info, q), a, b) {
      if q == p + [key] {
        NothingBefore(a, b);
      }
    }
  }

  lemma NothingBefore(a: string, b: string)
    ensures !Before([], a, b)
  {
  }

  lemma ClearedEnd(root: Trie, nodes: Nodes, info: Infos, p: Path)
    requires TreeOk(root, nodes, info) && InfosOk(info) && p in info
    ensures var info' := info[p := info[p].(isEnd := false, raw := "")];
            && TreeOk(root, nodes, info') && InfosOk(info')
            && RoutesOf(info') == RoutesOf(info) - {p}
            && (Pruned(info) ==> PrunedBut(info', p))
  {
    hide TreeOk, InfosOk, RoutesOf, PrunedBut;
    SameKidsSameTree(root, nodes, info, info[p := info[p].(isEnd := false, raw := "")]);
    ClearedInfos(info, p);
  }

  lemma ClearedInfos(info: Infos, p: Path)
    requires InfosOk(info) && p in info
    ensures var info' := info[p := info[p].(isEnd := false, raw := "")];
            && InfosOk(info')
            && RoutesOf(info') == RoutesOf(info) - {p}
            && (Pruned(info) ==> PrunedBut(info', p))
  {
    assert InfoOk(info[p]);
    assert InfoOk(info[p].(isEnd := false, raw := ""));
  }

  // ----- what a walk is

  /** The one edge that Find takes for a segment at a node. */
  ghost predicate Chosen(i: Node, seg: string, supportParams: bool, edge: string) {
    if seg in i.kids then edge == seg
    else if supportParams && PARAM in i.kids then edge == PARAM
    else if STAR in i.kids then edge == STAR
    else exists k | 0 <= k < |i.globs| ::
           i.globs[k] == edge && Globs(seg, edge) && forall j | 0 <= j < k :: !Globs(seg, i.globs[j])
  }

  /** No edge fits. */
  ghost predicate Stuck(i: Node, seg: string, supportParams: bool) {
    && seg !in i.kids && !(supportParams && PARAM in i.kids) && STAR !in i.kids
    && forall k | 0 <= k < |i.globs| :: !Globs(seg, i.globs[k])
  }

  ghost predicate Walks(info: Infos, walk: Path, segs: seq<string>, supportParams: bool) {
    && |walk| <= |segs| && walk in info
    && forall i | 0 <= i < |walk| :: walk[..i] in info && Chosen(info[walk[..i]], segs[i], supportParams, walk[i])
  }

  /** The walk used up the path, and the path is closed behind its last segment. */
  ghost predicate Reached(walk: Path, path: string, sep: char) {
    walk != [] && |walk| == |Segments(path, sep)| && Closed(path, sep)
  }

  /** The segments taken by a parameter edge that is not their own name. */
  function Captured(walk: Path, segs: seq<string>): seq<string>
    requires |walk| <= |segs|
  {
    if walk == [] then [] else
    var n := |walk| - 1;
    Captured(walk[..n], segs) + if walk[n] == PARAM && segs[n] != PARAM then [segs[n]] else []
  }

  /** The route of the star below a node, if it ends one. */
  function StarOr(info: Infos, p: Path, before: string): string {
    var q := p + [STAR];
    if q in info && info[q].isEnd then info[q].raw else before
  }

  /** The route of the deepest star that hangs below the first n nodes of the walk and ends one. */
  function StarRaw(info: Infos, walk: Path, n: nat): string
    requires n <= |walk| + 1
  {
    if n == 0 then "" else
    var q := walk[..n - 1] + [STAR];
    if q in info && info[q].isEnd then info[q].raw else StarRaw(info, walk, n - 1)
  }

  /** What a lookup that took this walk returns: the walk goes on as long as it can. */
  ghost predicate Answers(info: Infos, walk: Path, path: string, sep: char, supportParams: bool,
                          matchedRaw: string, wildcardRaw: string, paramVals: seq<string>) {
    var segs := Segments(path, sep);
    && Walks(info, walk, segs, supportParams)
    && (|walk| < |segs| ==> Stuck(info[walk], segs[|walk|], supportParams))
    && matchedRaw == (if Reached(walk, path, sep) then info[walk].raw else "")
    && wildcardRaw == StarRaw(info, walk, if Reached(walk, path, sep) then |walk| + 1 else |walk|)
    && paramVals == Captured(walk, segs)
  }

  /** A walk on its way, with the deepest star and the values met so far. */
  ghost predicate Seen(info: Infos, walk: Path, segs: seq<string>, supportParams: bool,
                       star: string, vals: seq<string>) {
    && |walk| <= |segs| && Walks(info, walk, segs, supportParams)
    && star == StarRaw(info, walk, |walk|) && vals == Captured(walk, segs)
  }

  lemma NothingSeen(info: Infos, segs: seq<string>, supportParams: bool)
    requires [] in info
    ensures Seen(info, [], segs, supportParams, "", [])
  {
  }

  lemma StuckAnswers(info: Infos, walk: Path, path: string, sep: char, supportParams: bool,
                     star: string, vals: seq<string>)
    requires Seen(info, walk, Segments(path, sep), supportParams, star, vals)
    requires |walk| < |Segments(path, sep)| && Stuck(info[walk], Segments(path, sep)[|walk|], supportParams)
    ensures Answers(info, walk, path, sep, supportParams, "", star, vals)
  {
    hide Walks, Captured, StarRaw, Stuck, Segments, Closed;
  }

  lemma FullAnswers(info: Infos, walk: Path, path: string, sep: char, supportParams: bool,
                    star: string, vals: seq<string>)
    requires Seen(info, walk, Segments(path, sep), supportParams, star, vals)
    requires walk != [] && |walk| == |Segments(path, sep)| && Closed(path, sep) && walk in info
    ensures Answers(info, walk, path, sep, supportParams, info[walk].raw, StarOr(info, walk, star), vals)
  {
    hide Walks, Captured, StarRaw, Stuck, Segments, Closed, StarOr;
    StarRawTop(info, walk);
  }

  lemma OpenAnswers(info: Infos, walk: Path, path: string, sep: char, supportParams: bool,
                    star: string, vals: seq<string>)
    requires Seen(info, walk, Segments(path, sep), supportParams, star, vals)
    requires |walk| == |Segments(path, sep)| && (walk == [] || !Closed(path, sep))
    ensures Answers(info, walk, path, sep, supportParams, "", star, vals)
  {
    hide Walks, Captured, StarRaw, Stuck, Segments, Closed;
  }

  /** Where a walk of n segments stands in the path. */
  ghost predicate Along(path: string, sep: char, n: nat, cursor: int) {
    && Follows(Segments(path, sep), n, SegmentsFrom(path, sep, cursor))
    && (if cursor == -1 then sep !in path && Segment(path, sep, cursor).1 == -1
        else 0 <= cursor < |path| && path[cursor] == sep)
    && (n > 0 ==> cursor < |path| - 1)
  }

  lemma AlongFirst(path: string, sep: char)
    ensures Along(path, sep, 0, IndexFrom(path, sep, 0))
  {
    hide SegmentsFrom, Segment;
    FirstCursor(path, sep);
  }

  lemma AlongNext(path: string, sep: char, n: nat, cursor: int)
    requires Along(path, sep, n, cursor) && Segment(path, sep, cursor).1 > -1
    ensures var (seg, next) := Segment(path, sep, cursor);
            && cursor < next < |path| && n < |Segments(path, sep)| && Segments(path, sep)[n] == seg
            && (if next < |path| - 1 then Along(path, sep, n + 1, next)
                else |Segments(path, sep)| == n + 1 && Closed(path, sep))
  {
    hide SegmentsFrom, Segment, Segments, IndexFrom;
    var (seg, next) := Segment(path, sep, cursor);
    WalkOn(path, sep, cursor);
    TakeOne(Segments(path, sep), n, seg, SegmentsFrom(path, sep, next));
    if next == |path| - 1 {
      LastSeparator(path, sep, next);
    }
  }

  lemma AlongEnd(path: string, sep: char, n: nat, cursor: int)
    requires Along(path, sep, n, cursor) && Segment(path, sep, cursor).1 <= -1
    ensures n == |Segments(path, sep)| && (n == 0 || !Closed(path, sep))
  {
    hide SegmentsFrom, Segment, Segments, IndexFrom;
    WalkOn(path, sep, cursor);
    LastCursor(path, sep, cursor);
  }

  lemma TakeOne(segs: seq<string>, n: nat, seg: string, rest: seq<string>)
    requires Follows(segs, n, [seg] + rest)
    ensures n < |segs| && segs[n] == seg && Follows(segs, n + 1, rest)
  {
    assert segs[n] == segs[n..][0] && segs[n + 1..] == segs[n..][1..];
  }

  lemma LastSeparator(path: string, sep: char, next: int)
    requires 0 <= next == |path| - 1 && path[next] == sep
    ensures SegmentsFrom(path, sep, next) == [] && Closed(path, sep)
  {
  }

  ghost predicate Follows(segs: seq<string>, n: nat, rest: seq<string>) {
    n <= |segs| && segs[n..] == rest
  }

  lemma {:induction false} StarRawStays(info: Infos, walk: Path, edge: string, n: nat)
    requires n <= |walk| + 1
    ensures StarRaw(info, walk + [edge], n) == StarRaw(info, walk, n)
  {
    if n > 0 {
      assert (walk + [edge])[..n - 1] == walk[..n - 1];
      StarRawStays(info, walk, edge, n - 1);
    }
  }

  lemma StarRawTop(info: Infos, walk: Path)
    ensures StarRaw(info, walk, |walk| + 1) == StarOr(info, walk, StarRaw(info, walk, |walk|))
  {
    assert walk[..|walk|] == walk;
  }

  lemma StepTo(info: Infos, walk: Path, segs: seq<string>, edge: string, supportParams: bool)
    requires Walks(info, walk, segs, supportParams) && |walk| < |segs|
    requires Chosen(info[walk], segs[|walk|], supportParams, edge)
    ensures var w := walk + [edge];
            && (w in info ==> Walks(info, w, segs, supportParams))
            && Captured(w, segs)
               == Captured(walk, segs) + (if edge == PARAM && segs[|walk|] != PARAM then [segs[|walk|]] else [])
            && StarRaw(info, w, |w|) == StarOr(info, walk, StarRaw(info, walk, |walk|))
  {
    var w := walk + [edge];
    assert w[..|walk|] == walk;
    assert forall i | 0 <= i < |walk| :: w[..i] == walk[..i];
    StarRawStays(info, walk, edge, |walk|);
  }

  lemma Shift(at: Path, seg: string, rest: Path)
    ensures (at + [seg]) + rest == at + ([seg] + rest)
  {
  }

  lemma FirstCursor(s: string, sep: char)
    ensures var c := IndexFrom(s, sep, 0);
            if c == -1 then sep !in s && Segment(s, sep, c).1 == -1 else s[c] == sep
  {
  }

  /** A walk that stops stands on the last separator; in a closed path that is its last character. */
  lemma LastCursor(s: string, sep: char, cursor: int)
    requires Segment(s, sep, cursor).1 == -1
    requires if cursor == -1 then sep !in s else 0 <= cursor < |s| && s[cursor] == sep
    ensures Closed(s, sep) <==> cursor == |s| - 1 && s != ""
  {
  }

  lemma MarkedEnd(root: Trie, nodes: Nodes, info: Infos, p: Path, raw: string)
    requires TreeOk(root, nodes, info) && InfosOk(info) && p in info
    ensures var info' := info[p := info[p].(isEnd := true, raw := raw)];
            && TreeOk(root, nodes, info') && InfosOk(info')
            && RoutesOf(info') == RoutesOf(info)[p := raw]
            && (PrunedBut(info, p) ==> Pruned(info'))
  {
    hide TreeOk, InfosOk, RoutesOf, PrunedBut;
    SameKidsSameTree(root, nodes, info, info[p := info[p].(isEnd := true, raw := raw)]);
    MarkedInfos(info, p, raw);
  }

  lemma MarkedInfos(info: Infos, p: Path, raw: string)
    requires InfosOk(info) && p in info
    ensures var info' := info[p := info[p].(isEnd := true, raw := raw)];
            && InfosOk(info')
            && RoutesOf(info') == RoutesOf(info)[p := raw]
            && (PrunedBut(info, p) ==> Pruned(info'))
  {
    assert InfoOk(info[p]);
    assert InfoOk(info[p].(isEnd := true, raw := raw));
  }

  /** The shape of the tree depends on the edges alone. */
  lemma SameKidsSameTree(root: Trie, nodes: Nodes, info: Infos, info': Infos)
    requires TreeOk(root, nodes, info)
    requires info'.Keys == info.Keys && forall p | p in info :: info'[p].kids == info[p].kids
    ensures TreeOk(root, nodes, info')
  {
    forall q | q in nodes && q != [] ensures Linked(nodes, info', q) {
      assert Linked(nodes, info, q);
    }
  }

  lemma OneNodeEach(root: Trie, nodes: Nodes, info: Infos)
    requires TreeOk(root, nodes, info)
    ensures info.Keys == nodes.Keys && OneEach(nodes)
    ensures [] in nodes && nodes[[]] == root
  {
  }

  lemma StillPruned(info: Infos, p: Path, seg: string)
    requires p in info && seg in info[p].kids
    ensures PrunedBut(info, p) ==> PrunedBut(info, p + [seg])
  {
  }
}
