/** The objects of the tree, linked in place. The set of live objects is a ghost parameter. */
module ObjectTree {
  import opened Bytes
  import opened Links
  import opened Ancestry
  import opened Naming

  datatype Kind = Leaf | Node | Dictionary

  ghost function AsOption(o: TreeObject?): Option<TreeObject> {
    if o == null then None else Some(o)
  }

  ghost function Parents(world: set<TreeObject>): map<TreeObject, Option<TreeObject>>
    reads world
  {
    map o | o in world :: AsOption(o.parent)
  }

  ghost function Lists(world: set<TreeObject>): map<TreeObject, seq<TreeObject>>
    reads world
  {
    map n | n in world && n.kind != Leaf :: n.children
  }

  /** The links of all live objects as a value. */
  ghost function Snapshot(world: set<TreeObject>): Graph<TreeObject>
    reads world
  {
    Graph(Parents(world), Lists(world))
  }

  ghost function Names(world: set<TreeObject>): map<TreeObject, Name>
    reads world
  {
    map o | o in world :: o.name
  }

  class TreeObject {
    const kind: Kind
    var name: Name
    var parent: TreeObject?
    var children: seq<TreeObject>

    constructor (name: Name, kind: Kind, parent: TreeObject?, ghost world: set<TreeObject>)
      requires parent != null ==> parent in world && parent.kind != Leaf
      modifies world`children, world`parent
      ensures fresh(this) && this.name == name && this.kind == kind
      ensures Snapshot(world + {this}) == Create(old(Snapshot(world)), this, kind != Leaf, AsOption(parent))
    {
      this.name, this.kind, this.parent, this.children := name, kind, parent, [];
      new;
      ghost var g := old(Snapshot(world));
      ghost var all := world + {this};
      assert Parents(all) == g.parent[this := AsOption(parent)];
      assert Lists(all) == if kind != Leaf then g.kids[this := []] else g.kids;
      if parent != null {
        parent.AddChild(this, all);
      }
    }

    /** The destructor; afterwards the object is no longer live. */
    method Destroy(ghost world: set<TreeObject>)
      requires this in world && (kind != Leaf ==> forall o :: o in children ==> o in world)
      requires parent != null ==> parent in world && parent.kind != Leaf
      modifies world`children, world`parent
      ensures Snapshot(world - {this}) == Links.Destroy(old(Snapshot(world)), this)
    {
      hide Without, Unhook, Orphan;
      ghost var g := Snapshot(world);
      OrphanChildren(world);
      ghost var g1 := Snapshot(world);
      if parent != null {
        parent.RemoveChild(this, world);
      }
      UnhookIs(g1, this);
      assert Snapshot(world) == Unhook(Orphan(g, this), this);
      assert Parents(world - {this}) == Parents(world) - {this};
      assert Lists(world - {this}) == Lists(world) - {this};
    }

    /** The node's destructor; leaves have none. */
    method OrphanChildren(ghost world: set<TreeObject>)
      requires this in world && (kind != Leaf ==> forall o :: o in children ==> o in world)
      modifies world`parent
      ensures Snapshot(world) == Orphan(old(Snapshot(world)), this)
      ensures parent == null || parent == old(parent)
    {
      if kind == Leaf {
        assert Parents(world) == Orphan(Snapshot(world), this).parent;
        return;
      }
      for i := 0 to |children|
        invariant forall o :: o in world ==> o.parent == if o in children[..i] then null else old(o.parent)
      {
        children[i].parent := null;
        assert children[..i + 1] == children[..i] + [children[i]];
      }
      assert children[..|children|] == children;
      assert Parents(world) == Orphan(old(Snapshot(world)), this).parent;
    }

    method AddChild(child: TreeObject, ghost world: set<TreeObject>)
      requires this in world && kind != Leaf && child in world
      requires child.parent != null ==> child.parent in world && child.parent.kind != Leaf
      modifies world`children, world`parent
      ensures Snapshot(world) == Add(old(Snapshot(world)), this, child)
    {
      hide Remove, Unhook;
      ghost var g := Snapshot(world);
      if child.parent != null {
        child.parent.RemoveChild(child, world);
      }
      ghost var g1 := Snapshot(world);
      UnhookIs(g, child);
      children := children + [child];
      child.parent := this;
      assert Parents(world) == g1.parent[child := Some(this)];
      assert Lists(world) == g1.kids[this := Kids(g1, this) + [child]];
    }

    method RemoveChild(child: TreeObject, ghost world: set<TreeObject>)
      requires this in world && kind != Leaf && child in world
      modifies this`children, child`parent
      ensures Snapshot(world) == Remove(old(Snapshot(world)), this, child)
    {
      hide Without;
      ghost var g := Snapshot(world);
      RemoveIfSame(child);
      assert Parents(world) == if child in Kids(g, this) then g.parent[child := None] else g.parent;
      assert Lists(world) == g.kids[this := Without(Kids(g, this), child)];
    }

    /** `remove_if` with a predicate that clears the parent of what it removes. */
    method RemoveIfSame(child: TreeObject)
      modifies this`children, child`parent
      ensures children == Without(old(children), child)
      ensures child.parent == if child in old(children) then null else old(child.parent)
    {
      hide Without;
      ghost var all := children;
      assert all[0..] == all;
      var kept, i := [], 0;
      while i < |children|
        invariant children == all && 0 <= i <= |all|
        invariant kept + Without(all[i..], child) == Without(all, child)
        invariant child.parent == if child in all[..i] then null else old(child.parent)
        decreases |all| - i
      {
        WithoutStep(all, i, child, kept);
        if children[i] == child {
          child.parent := null;
        } else {
          kept := kept + [children[i]];
        }
        i := i + 1;
      }
      WithoutEnd(all, child, kept);
      children := kept;
    }

    method ResetParent(at: TreeObject?, ghost world: set<TreeObject>)
      requires this in world && (parent != null ==> parent in world && parent.kind != Leaf)
      requires at != null ==> at in world && at.kind != Leaf
      modifies world`children, world`parent
      ensures Snapshot(world) == Reset(old(Snapshot(world)), this, AsOption(at))
    {
      if parent != null {
        parent.RemoveChild(this, world);
        assert Parents(world)[this] == AsOption(parent);
      }
      if at != null {
        at.AddChild(this, world);
      }
    }

    /** The climb to the root ends; the result is the root if that is a dictionary. */
    method GetObjectDictionary(ghost world: set<TreeObject>) returns (r: TreeObject?)
      requires Forest(Snapshot(world)) && this in world
      ensures Rooted(Parents(world), this)
      ensures var root := RootOf(Parents(world), this); r == if root.kind == Dictionary then root else null
    {
      hide Forest, Rooted, Height, RootOf;
      ParentIsLive(world, this);
      var te: TreeObject := this;
      while te.parent != null
        invariant te in world && Rooted(Parents(world), te)
        invariant RootOf(Parents(world), te) == RootOf(Parents(world), this)
        decreases Height(Parents(world), te)
      {
        ParentIsLive(world, te);
        HeightStep(Parents(world), te);
        RootStep(Parents(world), te);
        te := te.parent;
      }
      RootIsUnique(Parents(world), te, te);
      AboveItself(Parents(world), te);
      r := if te.kind == Dictionary then te else null;
    }

    method GetFqName(ghost world: set<TreeObject>) returns (r: Name)
      requires Forest(Snapshot(world)) && this in world
      ensures Rooted(Parents(world), this) && Named(Snapshot(world), Names(world))
      ensures r == FqName(Snapshot(world), Names(world), this, 58)
      decreases Height(Parents(world), this)
    {
      if parent == null {
        return name;
      }
      HeightStep(Parents(world), this);
      var front := parent.GetFqName(world);
      r := front + [58] + name;
    }

    method FindChild(name: Name, ghost world: set<TreeObject>) returns (r: TreeObject?)
      requires this in world && kind != Leaf && forall o :: o in children ==> o in world
      ensures AsOption(r) == Naming.FindChild(Names(world), children, name)
    {
      for i := 0 to |children|
        invariant Naming.FindChild(Names(world), children[i..], name) == Naming.FindChild(Names(world), children, name)
      {
        assert children[i..][0] == children[i] && children[i..][1..] == children[i + 1..];
        if children[i].name == name {
          return children[i];
        }
      }
      r := null;
    }

    method FindDescendantObject(uri: Name, separator: byte, ghost world: set<TreeObject>) returns (r: TreeObject?)
      requires Linked(Snapshot(world)) && this in world && kind != Leaf
      ensures AsOption(r) == FindDescendant(Snapshot(world), Names(world), this, uri, separator)
      decreases |uri|
    {
      hide Linked, Find, Naming.FindChild;
      var i := Find(uri, separator);
      ChildrenAreLive(world, this);
      var obj := FindChild(uri[..i], world);
      var rest := uri[i..];
      if |rest| == 0 {
        return obj;
      }
      rest := rest[1..];
      if |rest| == 0 {
        return null;
      }
      assert rest == uri[i + 1..];
      if obj != null && obj.kind != Leaf {
        ObjectIsLive(world, this, uri[..i]);
        r := obj.FindDescendantObject(rest, separator, world);
      } else {
        r := null;
      }
    }

    method FindObject(uri: Name, separator: byte, ghost world: set<TreeObject>) returns (r: TreeObject?)
      requires Linked(Snapshot(world)) && this in world && kind == Dictionary
      ensures AsOption(r) == Naming.FindObject(Snapshot(world), Names(world), this, uri, separator)
    {
      hide Linked, Find, FindDescendant;
      if |uri| == 0 {
        return null;
      }
      var u := uri;
      if u[0] == separator {
        u := u[1..];
      }
      var i := Find(u, separator);
      if name != u[..i] {
        return null;
      }
      if i == |u| {
        return this;
      }
      r := FindDescendantObject(u[i + 1..], separator, world);
    }
  }

  lemma UnhookIs<T>(g: Graph<T>, c: T)
    ensures Unhook(g, c) == match Parent(g, c) case Some(m) => Remove(g, m, c) case None => g
  {
  }

  lemma WithoutStep<T>(s: seq<T>, i: nat, x: T, kept: seq<T>)
    requires i < |s|
    ensures kept + Without(s[i..], x) == (if s[i] == x then kept else kept + [s[i]]) + Without(s[i + 1..], x)
    ensures x in s[..i + 1] <==> x in s[..i] || s[i] == x
  {
    assert s[..i + 1] == s[..i] + [s[i]];
    assert s[i..][0] == s[i] && s[i..][1..] == s[i + 1..];
  }

  lemma WithoutEnd<T>(s: seq<T>, x: T, kept: seq<T>)
    ensures kept + Without(s[|s|..], x) == kept && s[..|s|] == s
  {
  }

  lemma AboveItself<T>(p: map<T, Option<T>>, o: T)
    ensures Above(p, o, o)
  {
    assert Up(p, o, 0) == Some(o);
  }

  lemma ParentIsLive(world: set<TreeObject>, o: TreeObject)
    requires Forest(Snapshot(world)) && o in world
    ensures Rooted(Parents(world), o) && (o.parent != null ==> o.parent in world)
  {
  }

  lemma ChildrenAreLive(world: set<TreeObject>, n: TreeObject)
    requires Linked(Snapshot(world)) && n in world && n.kind != Leaf
    ensures forall o :: o in n.children ==> o in world
  {
    var g := Snapshot(world);
    assert forall o :: o in g.kids[n] ==> o in g.parent;
  }

  lemma ObjectIsLive(world: set<TreeObject>, n: TreeObject, name: Name)
    requires Linked(Snapshot(world)) && n in world && n.kind != Leaf
    ensures var found := Naming.FindChild(Names(world), n.children, name);
            found.Some? ==> found.value in world
  {
    FindChildSound(Names(world), n.children, name);
  }
}
