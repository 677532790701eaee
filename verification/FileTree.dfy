/**
 The node tree as objects: nodes with mutable children tables and parent pointers, and the file
 system that creates them.  Every method is tied to the tree value of module Trees.
 */
module FileTree {
  import opened Common
  import opened Paths
  import opened Trees
  import opened Inodes
  import R = Requests

  class Node {
    const name: string
    const inode: Inode
    var parent: Node?
    var children: map<string, Node>
    var isDel: bool

    constructor (name: string, inode: Inode)
      ensures this.name == name && this.inode == inode
      ensures parent == null && children == map[] && !isDel
    {
      this.name := name;
      this.inode := inode;
      parent := null;
      children := map[];
      isDel := false;
    }

    /** Marks the node as deleted, detaches it from its parent and drops the inode's cached data. */
    method Del()
      modifies this, inode.cache
      ensures isDel && parent == null && children == old(children)
      ensures inode.cache.ranges == []
    {
      isDel := true;
      parent := null;
      inode.cache.Clear();
    }

    ghost function Existing(name: string): set<Node>
      reads this
    {
      if name in children then {children[name]} else {}
    }

    /** Also for a child that is already there, which is then marked as deleted, and for the node itself. */
    method AddChild(child: Node)
      modifies this, child, Existing(child.name), set e | e in Existing(child.name) :: e.inode.cache
      ensures children == old(children)[child.name := child] && child.parent == this
      ensures forall n :: n in {this, child} + old(Existing(child.name)) ==>
                && (n.isDel <==> old(n.isDel) || n in old(Existing(child.name)))
                && (n != child ==> n.parent == if n in old(Existing(child.name)) then null else old(n.parent))
                && (n != this ==> n.children == old(n.children))
      ensures forall e :: e in old(Existing(child.name)) ==> e.inode.cache.ranges == []
    {
      if child.name in children {
        var existing := children[child.name];
        children := children - {child.name};
        existing.Del();
      }
      children := children[child.name := child];
      child.parent := this;
    }

    method RemoveChild(name: string) returns (removed: bool)
      modifies this, Existing(name)
      ensures removed <==> name in old(children)
      ensures children == old(children) - {name}
      ensures forall n :: n in {this} + old(Existing(name)) ==>
                && n.isDel == old(n.isDel)
                && n.parent == (if n in old(Existing(name)) then null else old(n.parent))
                && (n != this ==> n.children == old(n.children))
    {
      if name in children {
        var child := children[name];
        children := children - {name};
        child.parent := null;
        return true;
      }
      return false;
    }

    /** The node's mutable fields. */
    ghost function Fields(): Object
      reads this
    {
      Object(this, parent, children, isDel)
    }
  }

  /* ---------- All the objects at one moment, as a value ---------- */

  datatype Object = Object(node: Node, parent: Node?, children: map<string, Node>, isDel: bool)

  /** The objects by inode number. */
  type Heap = map<nat, Object>

  ghost predicate Known(h: Heap, n: Node) {
    n.inode.ino in h && h[n.inode.ino].node == n
  }

  /** Numbers are the nodes' own, and pointers stay among the known nodes. */
  ghost predicate Shape(h: Heap) {
    forall i :: i in h ==>
      && h[i].node.inode.ino == i
      && (h[i].parent != null ==> Known(h, h[i].parent))
      && forall x :: x in h[i].children ==> Known(h, h[i].children[x])
  }

  ghost function Numbers(children: map<string, Node>): map<string, nat> {
    map x | x in children :: children[x].inode.ino
  }

  ghost function EntryOf(o: Object): Entry {
    Entry(o.node.name, if o.parent == null then None else Some(o.parent.inode.ino), Numbers(o.children), o.isDel)
  }

  ghost function TreeOf(h: Heap): Tree {
    map i | i in h :: EntryOf(h[i])
  }

  /** The child of that name is marked as deleted (if `mark`) and loses its parent. */
  ghost function Unlink(h: Heap, p: nat, name: string, mark: bool): Heap
    requires Shape(h) && p in h
  {
    if name !in h[p].children then h
    else
      var e := h[p].children[name].inode.ino;
      h[e := h[e].(parent := null, isDel := mark || h[e].isDel)]
  }

  /** `AddChild` of a new node. */
  ghost function Linked(h: Heap, p: nat, name: string, node: Node): Heap
    requires Shape(h) && p in h
  {
    Unlink(h, p, name, true)[p := h[p].(children := h[p].children[name := node])]
    [node.inode.ino := Object(node, h[p].node, map[], false)]
  }

  /** `RemoveChild`. */
  ghost function Removed(h: Heap, p: nat, name: string): Heap
    requires Shape(h) && p in h
  {
    Unlink(h, p, name, false)[p := h[p].(children := h[p].children - {name})]
  }

  lemma LinkedShape(h: Heap, p: nat, name: string, node: Node)
    requires Shape(h) && p in h && node.inode.ino !in h
    ensures Shape(Linked(h, p, name, node)) && Known(Linked(h, p, name, node), node)
  {
    var h' := Linked(h, p, name, node);
    assert forall n :: Known(h, n) ==> Known(h', n);
    forall i | i in h' ensures h'[i].node.inode.ino == i
      ensures h'[i].parent != null ==> Known(h', h'[i].parent)
      ensures forall x :: x in h'[i].children ==> Known(h', h'[i].children[x])
    {
      assert i in h || i == node.inode.ino;
    }
  }

  lemma RemovedShape(h: Heap, p: nat, name: string)
    requires Shape(h) && p in h
    ensures Shape(Removed(h, p, name))
  {
    var h' := Removed(h, p, name);
    assert forall n :: Known(h, n) ==> Known(h', n);
    forall i | i in h' ensures h'[i].node.inode.ino == i
      ensures h'[i].parent != null ==> Known(h', h'[i].parent)
      ensures forall x :: x in h'[i].children ==> Known(h', h'[i].children[x])
    {
      assert i in h;
    }
  }

  /** On the tree value, linking is attaching. */
  lemma LinkedTree(h: Heap, last: nat, p: nat, name: string, node: Node)
    requires Shape(h) && p in h && node.inode.ino == last + 1 && node.name == name
    requires WellFormed(TreeOf(h), last)
    ensures TreeOf(Linked(h, p, name, node)) == Attach(TreeOf(h), last, p, name)
    ensures WellFormed(TreeOf(Linked(h, p, name, node)), last + 1)
  {
    LinkedRelinks(h, last, p, name, node);
    AttachWellFormed(TreeOf(h), last, p, name);
    RelinkedUnique(TreeOf(h), p, name, true, Some(last + 1), TreeOf(Linked(h, p, name, node)),
                   Attach(TreeOf(h), last, p, name));
  }

  lemma LinkedRelinks(h: Heap, last: nat, p: nat, name: string, node: Node)
    requires Shape(h) && p in h && node.inode.ino == last + 1 && node.name == name
    requires WellFormed(TreeOf(h), last)
    ensures Relinked(TreeOf(h), p, name, true, Some(last + 1), TreeOf(Linked(h, p, name, node)))
  {
    var t := TreeOf(h);
    if name in h[p].children {
      KidIsOther(h, last, p, name);
    }
    assert last + 1 !in t && t[p] == EntryOf(h[p]) && h[p].node.inode.ino == p;
    UnlinkOthers(h, p, name, true);
    var u := Unlink(h, p, name, true);
    var o, c := h[p].(children := h[p].children[name := node]), Object(node, h[p].node, map[], false);
    LinkedEntries(h, p, name, node);
    hide WellFormed, EntryOf, Shape, Unlink;
    TreeOfUpdate(u, p, o);
    TreeOfUpdate(u[p := o], last + 1, c);
    hide TreeOf;
    UpdatedRelinks(t, TreeOf(u), p, name, last + 1);
  }

  lemma LinkedEntries(h: Heap, p: nat, name: string, node: Node)
    requires Shape(h) && p in h && node.name == name
    ensures EntryOf(Object(node, h[p].node, map[], false)) == Entry(name, Some(p), map[], false)
    ensures EntryOf(h[p].(children := h[p].children[name := node])) ==
            EntryOf(h[p]).(kids := EntryOf(h[p]).kids[name := node.inode.ino])
  {
    assert Numbers(h[p].children[name := node]) == Numbers(h[p].children)[name := node.inode.ino];
    assert Numbers(map[]) == map[];
  }

  lemma UpdatedRelinks(t: Tree, u: Tree, p: nat, name: string, c: nat)
    requires p in t && c !in t && u.Keys == t.Keys
    requires name in t[p].kids ==> t[p].kids[name] != p
    requires forall n :: n in t ==>
               u[n] == if name in t[p].kids && n == t[p].kids[name]
                       then t[n].(parent := None, isDel := true || t[n].isDel) else t[n]
    ensures Relinked(t, p, name, true, Some(c),
                     u[p := t[p].(kids := t[p].kids[name := c])][c := Entry(name, Some(p), map[], false)])
  {
  }

  lemma TreeOfUpdate(h: Heap, i: nat, o: Object)
    ensures TreeOf(h[i := o]) == TreeOf(h)[i := EntryOf(o)]
  {
  }

  /** Taking a child out changes that child only. */
  lemma UnlinkOthers(h: Heap, p: nat, name: string, mark: bool)
    requires Shape(h) && p in h
    ensures var t, t' := TreeOf(h), TreeOf(Unlink(h, p, name, mark));
            && t'.Keys == t.Keys && t[p].kids.Keys == h[p].children.Keys
            && forall n :: n in t ==>
                 t'[n] == if name in t[p].kids && n == t[p].kids[name]
                          then t[n].(parent := None, isDel := mark || t[n].isDel) else t[n]
  {
    var t := TreeOf(h);
    assert t[p] == EntryOf(h[p]);
    if name in h[p].children {
      assert t[p].kids[name] == h[p].children[name].inode.ino;
    }
  }

  lemma RemovedTree(h: Heap, last: nat, p: nat, name: string)
    requires Shape(h) && p in h && WellFormed(TreeOf(h), last)
    ensures TreeOf(Removed(h, p, name)) == RemoveChild(TreeOf(h), p, name)
    ensures WellFormed(TreeOf(Removed(h, p, name)), last)
  {
    var t, h' := TreeOf(h), Removed(h, p, name);
    RemovedRelinks(h, last, p, name);
    RemoveWellFormed(t, last, p, name);
    RelinkedUnique(t, p, name, false, None, TreeOf(h'), RemoveChild(t, p, name));
  }

  lemma RemovedEntry(h: Heap, p: nat, name: string)
    requires p in h
    ensures EntryOf(h[p].(children := h[p].children - {name})) == EntryOf(h[p]).(kids := EntryOf(h[p]).kids - {name})
  {
    assert Numbers(h[p].children - {name}) == Numbers(h[p].children) - {name};
  }

  lemma RemovedRelinks(h: Heap, last: nat, p: nat, name: string)
    requires Shape(h) && p in h && WellFormed(TreeOf(h), last)
    ensures Relinked(TreeOf(h), p, name, false, None, TreeOf(Removed(h, p, name)))
  {
    assert TreeOf(h)[p] == EntryOf(h[p]);
    UnlinkOthers(h, p, name, false);
    var u, o := Unlink(h, p, name, false), h[p].(children := h[p].children - {name});
    OwnKidIsOther(h, last, p, name);
    RemovedEntry(h, p, name);
    hide WellFormed, Shape, Unlink, EntryOf;
    TreeOfUpdate(u, p, o);
    hide TreeOf;
    UpdatedRemoves(TreeOf(h), TreeOf(u), p, name);
  }

  lemma OwnKidIsOther(h: Heap, last: nat, p: nat, name: string)
    requires p in h && WellFormed(TreeOf(h), last)
    ensures p in TreeOf(h) && (name in TreeOf(h)[p].kids ==> TreeOf(h)[p].kids[name] != p)
  {
    assert name in TreeOf(h)[p].kids ==> KidAgrees(TreeOf(h), p, name);
  }

  lemma UpdatedRemoves(t: Tree, u: Tree, p: nat, name: string)
    requires p in t && u.Keys == t.Keys
    requires name in t[p].kids ==> t[p].kids[name] != p
    requires forall n :: n in t ==>
               u[n] == if name in t[p].kids && n == t[p].kids[name]
                       then t[n].(parent := None, isDel := false || t[n].isDel) else t[n]
    ensures Relinked(t, p, name, false, None, u[p := t[p].(kids := t[p].kids - {name})])
  {
  }

  lemma KidIsOther(h: Heap, last: nat, p: nat, name: string)
    requires Shape(h) && p in h && WellFormed(TreeOf(h), last) && name in h[p].children
    ensures h[p].children[name] != h[p].node && h[p].children[name].inode.ino > p
    ensures Known(h, h[p].children[name])
  {
    var t := TreeOf(h);
    assert t[p] == EntryOf(h[p]);
    assert name in t[p].kids && t[p].kids[name] == h[p].children[name].inode.ino;
  }

  /** `AddChild`, object by object; `h'` does not list the new node. */
  ghost predicate AddedUnder(h: Heap, p: nat, name: string, node: Node, h': Heap)
    requires p in h
  {
    && h'.Keys == h.Keys
    && h'[p] == h[p].(children := h[p].children[name := node])
    && forall k :: k in h && k != p ==>
         h'[k] == if name in h[p].children && h[k].node == h[p].children[name]
                  then h[k].(parent := null, isDel := true) else h[k]
  }

  lemma AddedIsLinked(h: Heap, p: nat, name: string, node: Node, h': Heap)
    requires Shape(h) && p in h && node.inode.ino !in h
    requires name in h[p].children ==> h[p].children[name] != h[p].node
    requires AddedUnder(h, p, name, node, h')
    ensures h'[node.inode.ino := Object(node, h[p].node, map[], false)] == Linked(h, p, name, node)
  {
    var l := Unlink(h, p, name, true)[p := h'[p]];
    forall k | k in h && k != p ensures h'[k] == l[k] {
      if name in h[p].children && h[k].node == h[p].children[name] {
        assert k == h[p].children[name].inode.ino;
      }
    }
    assert h' == l;
  }

  /** Adding the new node among the known objects keeps them in order and attaches it in the tree. */
  lemma LinkedAll(h: Heap, last: nat, p: nat, name: string, node: Node, h': Heap)
    requires Shape(h) && p in h && WellFormed(TreeOf(h), last)
    requires node.inode.ino == last + 1 && last + 1 !in h && node.name == name
    requires name in h[p].children ==> h[p].children[name] != h[p].node
    requires AddedUnder(h, p, name, node, h')
    ensures var l := h'[last + 1 := Object(node, h[p].node, map[], false)];
            && Shape(l) && Known(l, node) && WellFormed(TreeOf(l), last + 1)
            && p in TreeOf(h) && TreeOf(l) == Attach(TreeOf(h), last, p, name)
  {
    assert p in TreeOf(h);
    hide Shape, WellFormed, TreeOf, Known, Attach, AddedUnder, Linked;
    AddedIsLinked(h, p, name, node, h');
    LinkedShape(h, p, name, node);
    LinkedTree(h, last, p, name, node);
  }

  lemma FreeNumber(h: Heap, last: nat)
    requires WellFormed(TreeOf(h), last)
    ensures last + 1 !in h
  {
    assert TreeOf(h).Keys == h.Keys;
  }

  lemma MoreNumbers(t: Tree, last: nat)
    requires WellFormed(t, last)
    ensures WellFormed(t, last + 1)
  {
  }

  /** A relinked tree is determined by what was relinked. */
  lemma RelinkedUnique(t: Tree, p: nat, name: string, mark: bool, kid: Option<nat>, t': Tree, t'': Tree)
    requires p in t && Relinked(t, p, name, mark, kid, t') && Relinked(t, p, name, mark, kid, t'')
    ensures t' == t''
  {
  }

  /** The objects behind a table of nodes. */
  ghost function ObjectsOf(nodes: map<nat, Node>): Heap
    reads nodes.Values
  {
    map i | i in nodes :: nodes[i].Fields()
  }

  /** `p.AddChild(node)`: what becomes of the known objects. */
  method AddAmong(ghost nodes: map<nat, Node>, p: Node, node: Node)
    requires forall k :: k in nodes ==> nodes[k].inode.ino == k
    requires p.inode.ino in nodes && nodes[p.inode.ino] == p
    requires p !in p.Existing(node.name) && node !in nodes.Values && node != p && node !in p.Existing(node.name)
    modifies p, node, p.Existing(node.name), set e | e in p.Existing(node.name) :: e.inode.cache
    ensures AddedUnder(old(ObjectsOf(nodes)), p.inode.ino, node.name, node, ObjectsOf(nodes))
    ensures node.parent == p && node.children == old(node.children) && node.isDel == old(node.isDel)
  {
    ghost var h, i, name := ObjectsOf(nodes), p.inode.ino, node.name;
    ghost var gone := p.Existing(name);
    p.AddChild(node);
    ghost var h' := ObjectsOf(nodes);
    assert h[i] == old(p.Fields()) && h'[i] == p.Fields();
    forall k | k in h && k != i
      ensures h'[k] == if name in h[i].children && h[k].node == h[i].children[name]
                       then h[k].(parent := null, isDel := true) else h[k]
    {
      ghost var n := nodes[k];
      assert h'[k] == n.Fields() && h[k] == old(n.Fields());
      assert n in gone || n.Fields() == old(n.Fields());
    }
  }

  /** Makes a node with inode number `ino` and adds it under `p`. */
  method MakeUnder(ghost nodes: map<nat, Node>, p: Node, name: string, ino: nat, adapters: nat) returns (node: Node)
    requires forall k :: k in nodes ==> nodes[k].inode.ino == k
    requires p.inode.ino in nodes && nodes[p.inode.ino] == p && p !in p.Existing(name)
    modifies p, p.Existing(name), set e | e in p.Existing(name) :: e.inode.cache
    ensures AddedUnder(old(ObjectsOf(nodes)), p.inode.ino, name, node, ObjectsOf(nodes))
    ensures fresh(node) && fresh(node.inode.cache) && node.Fields() == Object(node, p, map[], false)
    ensures node.inode.ino == ino && node.name == name && node.inode.AdapterCount() == adapters
  {
    hide AddedUnder, Inode.AdapterCount;
    var inode := new Inode(ino, adapters);
    node := new Node(name, inode);
    CountOf(inode, adapters);
    assert ObjectsOf(nodes) == old(ObjectsOf(nodes));
    hide ObjectsOf;
    AddAmong(nodes, p, node);
  }

  lemma ObjectsExtend(nodes: map<nat, Node>, node: Node)
    ensures ObjectsOf(nodes[node.inode.ino := node]) == ObjectsOf(nodes)[node.inode.ino := node.Fields()]
  {
  }

  lemma CountOf(inode: Inode, adapters: nat)
    requires adapters == 0 <==> inode.pool == null
    requires inode.pool != null ==> |inode.pool.All()| == adapters
    ensures inode.AdapterCount() == adapters
  {
  }

  /* ---------- The file system ---------- */

  datatype FileOutcome = Added(node: Node) | Failed(why: R.FileError)

  class FileSystem {
    const root: Node
    var lastIno: nat
    /** Every node ever created, by inode number. */
    ghost var nodes: map<nat, Node>

    ghost function Nodes(): set<Node>
      reads this
    {
      nodes.Values
    }

    ghost function Caches(): set<DataCache>
      reads this
    {
      set n | n in nodes.Values :: n.inode.cache
    }

    ghost function Objects(): Heap
      reads this, Nodes()
    {
      ObjectsOf(nodes)
    }

    ghost function View(): Tree
      reads this, Nodes()
    {
      TreeOf(Objects())
    }

    ghost predicate Valid()
      reads this, Nodes()
    {
      && ROOT in nodes && nodes[ROOT] == root
      && Shape(Objects()) && WellFormed(View(), lastIno)
    }

    constructor ()
      ensures Valid() && View() == Fresh() && lastIno == ROOT
      ensures fresh(Nodes()) && fresh(Caches())
    {
      var inode := new Inode(ROOT, 0);
      var r := new Node("", inode);
      root := r;
      lastIno := ROOT;
      nodes := map[ROOT := r];
      new;
      var h := Objects();
      assert h[ROOT] == Object(r, null, map[], false);
      assert EntryOf(h[ROOT]).kids == map[];
      assert View() == Fresh();
      FreshIsWellFormed();
    }

    /** What there is around a node before something is added under it. */
    lemma Neighbours(p: Node, name: string)
      requires Valid() && Known(Objects(), p)
      ensures p in Nodes() && p.inode.ino in Objects() && lastIno + 1 !in nodes && lastIno + 1 !in Objects()
      ensures forall k :: k in nodes ==> nodes[k].inode.ino == k
      ensures nodes[p.inode.ino] == p && Objects()[p.inode.ino] == p.Fields()
      ensures forall e :: e in p.Existing(name) ==> e in Nodes() && e != p
    {
      var h, i := Objects(), p.inode.ino;
      assert h[i] == p.Fields();
      assert forall k :: k in h ==> h[k].node == nodes[k] && h[k].node.inode.ino == k;
      FreeNumber(h, lastIno);
      if name in p.children {
        KidIsOther(h, lastIno, i, name);
        assert p.children[name] in Nodes();
      }
    }

    /** Draws the next inode number, makes a node and adds it under `p`. */
    method Link(p: Node, name: string, adapters: nat) returns (node: Node)
      requires Valid() && Known(Objects(), p)
      modifies this, Nodes(), Caches()
      ensures Valid() && lastIno == old(lastIno) + 1
      ensures View() == Attach(old(View()), old(lastIno), p.inode.ino, name)
      ensures nodes == old(nodes)[lastIno := node] && fresh(node) && fresh(node.inode.cache) && Known(Objects(), node)
      ensures node.inode.ino == lastIno && node.name == name && node.inode.AdapterCount() == adapters
    {
      hide WellFormed, Shape, TreeOf, Attach, ObjectsOf, Known, AddedUnder, Inode.AdapterCount;
      ghost var h, last, i := Objects(), lastIno, p.inode.ino;
      Neighbours(p, name);
      lastIno := lastIno + 1;
      node := MakeUnder(nodes, p, name, lastIno, adapters);
      LinkedAll(h, last, i, name, node, Objects());
      ObjectsExtend(nodes, node);
      nodes := nodes[lastIno := node];
    }

    /** The same, with what a caller needs to go on. */
    method AddNew(p: Node, name: string, adapters: nat) returns (node: Node)
      requires Valid() && Known(Objects(), p)
      modifies this, Nodes(), Caches()
      ensures Valid() && Known(Objects(), node) && lastIno == old(lastIno) + 1
      ensures View() == Attach(old(View()), old(lastIno), p.inode.ino, name)
      ensures node.inode.ino == lastIno && lastIno in View() && fresh(node) && OnlyNew()
      ensures node.name == name && node.inode.AdapterCount() == adapters
    {
      hide WellFormed, Shape, TreeOf, ObjectsOf, Known, Attach;
      node := Link(p, name, adapters);
      KidNumbers(node, name);
    }

    /** Only known nodes and their caches, or new ones, are ever touched. */
    twostate predicate OnlyNew()
      reads this
    {
      && (forall n :: n in Nodes() ==> n in old(Nodes()) || fresh(n))
      && (forall c :: c in Caches() ==> c in old(Caches()) || fresh(c))
    }

    /**
     `mkdir -p`: the loop over the pieces of the path computes what `MkDirs` says of the names.
     */
    method AddDirNode(path: string) returns (node: Node)
      requires Valid()
      modifies this, Nodes(), Caches()
      ensures Valid() && Known(Objects(), node)
      ensures Made(View(), lastIno, node.inode.ino) == R.AddDir(old(View()), old(lastIno), path)
      ensures OnlyNew()
    {
      var pieces := Split(path);
      var cur := root;
      ghost var goal := R.AddDir(View(), lastIno, path);
      RootKnown();
      assert pieces[0..] == pieces;
      for i := 0 to |pieces|
        invariant Valid() && Known(Objects(), cur) && OnlyNew()
        invariant cur.inode.ino in View()
        invariant MkDirs(View(), lastIno, cur.inode.ino, NonEmpty(pieces[i..])) == goal
      {
        var name := pieces[i];
        assert pieces[i..][0] == name && pieces[i..][1..] == pieces[i + 1..];
        if name == "" {
          continue;
        }
        cur := EnterOrMake(cur, name, NonEmpty(pieces[i + 1..]));
      }
      node := cur;
    }

    lemma RootKnown()
      requires Valid()
      ensures Known(Objects(), root) && root.inode.ino == ROOT && ROOT in View()
    {
      assert Objects()[ROOT] == root.Fields();
    }

    /** One turn of the loop: enter the child of that name, or make it. */
    method EnterOrMake(cur: Node, name: string, ghost rest: seq<string>) returns (next: Node)
      requires Valid() && Known(Objects(), cur) && cur.inode.ino in View()
      modifies this, Nodes(), Caches()
      ensures Valid() && Known(Objects(), next) && next.inode.ino in View()
      ensures OnlyNew()
      ensures MkDirs(View(), lastIno, next.inode.ino, rest) ==
              MkDirs(old(View()), old(lastIno), cur.inode.ino, [name] + rest)
    {
      hide WellFormed, Shape, TreeOf, ObjectsOf, Known, Attach, MkDirs;
      KidNumbers(cur, name);
      MkDirsCons(View(), lastIno, cur.inode.ino, name, rest);
      if name in cur.children {
        next := cur.children[name];
      } else {
        next := AddNew(cur, name, 0);
      }
    }

    lemma KidNumbers(p: Node, name: string)
      requires Valid() && Known(Objects(), p)
      ensures p.inode.ino in View() && (name in View()[p.inode.ino].kids <==> name in p.children)
      ensures name in p.children ==>
                Known(Objects(), p.children[name]) && p.children[name].inode.ino in View()
                && View()[p.inode.ino].kids[name] == p.children[name].inode.ino
    {
      var h, i := Objects(), p.inode.ino;
      assert h[i] == p.Fields() && View()[i] == EntryOf(h[i]);
    }

    /** What AddFileNode comes to, as `R.AddFile` has it. */
    ghost predicate FileSpec(r: R.FileResult, out: FileOutcome)
      reads this, Nodes()
    {
      && View() == r.tree && lastIno == r.last
      && match out
         case Added(node) => r.Created? && Known(Objects(), node) && node.inode.ino == r.node
         case Failed(why) => r == R.Refused(r.tree, r.last, why)
    }

    /** `adapters` is how many of the request's sources yield an adapter. */
    method AddFileNode(path: string, adapters: nat) returns (out: FileOutcome)
      requires Valid()
      modifies this, Nodes(), Caches()
      ensures Valid() && OnlyNew()
      ensures FileSpec(R.AddFile(old(View()), old(lastIno), path, adapters > 0), out)
      ensures out.Added? ==>
                fresh(out.node) && out.node.name == CutLast(path).1 && out.node.inode.AdapterCount() == adapters
    {
      hide WellFormed, Shape, TreeOf, ObjectsOf, Known, Attach, MkDirs, R.AddFile;
      R.AddFileShape(View(), lastIno, path, adapters > 0);
      ghost var d := R.DirPart(View(), lastIno, path);
      var parent := root;
      var (dir, name) := CutLast(path);
      RootKnown();
      if dir != "" {
        parent := AddDirNode(dir);
      } else {
        R.NoDirPart(View(), lastIno, path);
      }
      assert Made(View(), lastIno, parent.inode.ino) == d;
      out := AddFileUnder(parent, name, adapters);
    }

    /** The second half of AddFileNode: the directory is there, the file is added or refused. */
    method AddFileUnder(parent: Node, name: string, adapters: nat) returns (out: FileOutcome)
      requires Valid() && Known(Objects(), parent) && parent.inode.ino in View()
      modifies this, Nodes(), Caches()
      ensures Valid() && OnlyNew()
      ensures var t, p := old(View()), parent.inode.ino;
              match out
              case Added(node) =>
                && name !in t[p].kids && adapters > 0
                && View() == Attach(t, old(lastIno), p, name) && lastIno == old(lastIno) + 1
                && Known(Objects(), node) && node.inode.ino == lastIno && fresh(node)
                && node.name == name && node.inode.AdapterCount() == adapters
              case Failed(why) =>
                && View() == t && (name in t[p].kids || adapters == 0)
                && why == (if name in t[p].kids then R.AlreadyExists else R.NoValidAdapters)
                && lastIno == if name in t[p].kids then old(lastIno) else old(lastIno) + 1
    {
      hide WellFormed, Shape, TreeOf, ObjectsOf, Known, Attach;
      KidNumbers(parent, name);
      if name in parent.children {
        return Failed(R.AlreadyExists);
      }
      if adapters == 0 {
        BumpNumber();
        return Failed(R.NoValidAdapters);
      }
      var node := AddNew(parent, name, adapters);
      out := Added(node);
    }

    /** A number drawn and not used. */
    method BumpNumber()
      requires Valid()
      modifies this`lastIno
      ensures Valid() && lastIno == old(lastIno) + 1 && View() == old(View())
    {
      MoreNumbers(View(), lastIno);
      hide WellFormed, Shape, TreeOf, ObjectsOf;
      ghost var h := Objects();
      lastIno := lastIno + 1;
      assert Objects() == h;
    }

    /** `p.RemoveChild(name)`. */
    method RemoveFrom(p: Node, name: string) returns (removed: bool)
      requires Valid() && Known(Objects(), p)
      modifies Nodes()
      ensures Valid() && nodes == old(nodes)
      ensures removed <==> name in old(p.children)
      ensures p.inode.ino in old(View()) && View() == RemoveChild(old(View()), p.inode.ino, name)
    {
      hide WellFormed, Shape, TreeOf, Known, Removed;
      ghost var h, i := Objects(), p.inode.ino;
      Neighbours(p, name);
      KidNumbers(p, name);
      removed := RemoveAmong(nodes, p, name);
      hide ObjectsOf;
      RemovedObjectwise(h, i, name, Objects());
      RemovedShape(h, i, name);
      RemovedTree(h, lastIno, i, name);
    }

    lemma ParentNumbers(n: Node)
      requires Valid() && Known(Objects(), n)
      ensures n.inode.ino in View() && View()[n.inode.ino] == EntryOf(n.Fields()) && ParentsAgree(View())
      ensures n.parent != null ==>
                Known(Objects(), n.parent) && n.parent.inode.ino in View() && n.parent.inode.ino < n.inode.ino
    {
      var t, i := View(), n.inode.ino;
      assert Objects()[i] == n.Fields() && t[i] == EntryOf(n.Fields());
    }

    /** The text and error of `Path`, going up by parent pointers. */
    method PathOf(n: Node) returns (r: PathResult)
      requires Valid() && Known(Objects(), n)
      ensures n.inode.ino in View() && r == Path(View(), n.inode.ino)
      decreases n.inode.ino
    {
      ParentNumbers(n);
      hide WellFormed, Shape, TreeOf, ObjectsOf, Known, KidsAgree;
      if n.parent == null && n.inode.ino == ROOT {
        return PathResult("", None);
      }
      if n.isDel {
        return PathResult("", Some(Deleted(n.name)));
      }
      if n.parent == null {
        return PathResult(n.name, Some(Detached(n.name)));
      }
      var up := PathOf(n.parent);
      if up.text == "" {
        return PathResult(up.text + n.name, up.err);
      }
      return PathResult(up.text + "/" + n.name, up.err);
    }
  }

  /** `p.RemoveChild(name)`: what becomes of the known objects. */
  method RemoveAmong(ghost nodes: map<nat, Node>, p: Node, name: string) returns (removed: bool)
    requires forall k :: k in nodes ==> nodes[k].inode.ino == k
    requires p.inode.ino in nodes && nodes[p.inode.ino] == p && p !in p.Existing(name)
    modifies p, p.Existing(name)
    ensures removed <==> name in old(p.children)
    ensures RemovedUnder(old(ObjectsOf(nodes)), p.inode.ino, name, ObjectsOf(nodes))
  {
    ghost var h, i := ObjectsOf(nodes), p.inode.ino;
    assert h[i] == p.Fields();
    removed := p.RemoveChild(name);
    ghost var h' := ObjectsOf(nodes);
    assert h'[i] == p.Fields();
    forall k | k in h && k != i
      ensures h'[k] == if name in h[i].children && h[k].node == h[i].children[name]
                       then h[k].(parent := null) else h[k]
    {
      ghost var n := nodes[k];
      assert h'[k] == n.Fields() && h[k] == old(n.Fields());
    }
  }

  ghost predicate RemovedUnder(h: Heap, p: nat, name: string, h': Heap)
    requires p in h
  {
    && h'.Keys == h.Keys
    && h'[p] == h[p].(children := h[p].children - {name})
    && forall k :: k in h && k != p ==>
         h'[k] == if name in h[p].children && h[k].node == h[p].children[name]
                  then h[k].(parent := null) else h[k]
  }

  lemma RemovedObjectwise(h: Heap, p: nat, name: string, h': Heap)
    requires Shape(h) && p in h
    requires name in h[p].children ==> h[p].children[name] != h[p].node
    requires RemovedUnder(h, p, name, h')
    ensures h' == Removed(h, p, name)
  {
    var l := Removed(h, p, name);
    forall k | k in h && k != p ensures h'[k] == l[k] {
      if name in h[p].children && h[k].node == h[p].children[name] {
        assert k == h[p].children[name].inode.ino;
      }
    }
  }
}
