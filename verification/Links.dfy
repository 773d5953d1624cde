/** Parent and child links as values: what the operations of the object tree do to them. */
module Links {
  import opened Bytes

  /** Every live object has an entry in `parent`; the nodes among them have a list in `kids`. */
  datatype Graph<T> = Graph(parent: map<T, Option<T>>, kids: map<T, seq<T>>)

  function Parent<T(==)>(g: Graph<T>, o: T): Option<T> {
    if o in g.parent then g.parent[o] else None
  }

  function Kids<T(==)>(g: Graph<T>, n: T): seq<T> {
    if n in g.kids then g.kids[n] else []
  }

  function Without<T(==)>(s: seq<T>, x: T): (r: seq<T>)
    ensures multiset(r) == multiset(s)[x := 0]
    ensures forall y :: y in r ==> y in s
    ensures x !in s ==> r == s
  {
    if s == [] then []
    else
      assert s == [s[0]] + s[1..];
      if s[0] == x then Without(s[1..], x) else [s[0]] + Without(s[1..], x)
  }

  // --- The operations ----------------------------------------------------------------------------

  function Remove<T(==)>(g: Graph<T>, n: T, c: T): Graph<T> {
    Graph(if c in Kids(g, n) then g.parent[c := None] else g.parent, g.kids[n := Without(Kids(g, n), c)])
  }

  /** The child is taken from where it hangs. */
  function Unhook<T(==)>(g: Graph<T>, c: T): Graph<T> {
    match Parent(g, c)
    case Some(m) => Remove(g, m, c)
    case None => g
  }

  function Add<T(==)>(g: Graph<T>, n: T, c: T): Graph<T> {
    var g1 := Unhook(g, c);
    Graph(g1.parent[c := Some(n)], g1.kids[n := Kids(g1, n) + [c]])
  }

  /** The constructor notes the parent before it tells the parent. */
  function Create<T(==)>(g: Graph<T>, c: T, isNode: bool, at: Option<T>): Graph<T> {
    var g1 := Graph(g.parent[c := at], if isNode then g.kids[c := []] else g.kids);
    if at.Some? then Add(g1, at.value, c) else g1
  }

  function Reset<T(==)>(g: Graph<T>, c: T, at: Option<T>): Graph<T> {
    var g1 := Unhook(g, c);
    if at.Some? then Add(g1, at.value, c) else g1
  }

  function Orphan<T(==)>(g: Graph<T>, x: T): Graph<T> {
    g.(parent := map o <- g.parent :: if o in Kids(g, x) then None else g.parent[o])
  }

  /** The destructor: the children lose their parent, the parent loses its child, the object is gone. */
  function Destroy<T(==)>(g: Graph<T>, x: T): Graph<T> {
    var g1 := Unhook(Orphan(g, x), x);
    Graph(g1.parent - {x}, g1.kids - {x})
  }

  /** What the lists look like after an object has been taken out: the others stay, in their order. */
  lemma {:induction false} WithoutConcat<T>(a: seq<T>, b: seq<T>, x: T)
    ensures Without(a + b, x) == Without(a, x) + Without(b, x)
  {
    if a == [] {
      assert a + b == b;
    } else {
      assert (a + b)[1..] == a[1..] + b;
      WithoutConcat(a[1..], b, x);
    }
  }

  lemma WithoutOne<T>(y: T, x: T)
    ensures Without([y], x) == if y == x then [] else [y]
  {
    assert [y][1..] == [];
  }

  /** Two others that stay have the same order before and after. */
  lemma WithoutKeepsOrder<T>(s: seq<T>, x: T, i: nat, j: nat)
    requires i < j < |s| && s[i] != x && s[j] != x
    ensures exists k, l :: 0 <= k < l < |Without(s, x)| && Without(s, x)[k] == s[i] && Without(s, x)[l] == s[j]
  {
    hide Without;
    var a, b, c := s[..i], s[i + 1..j], s[j + 1..];
    assert s == a + ([s[i]] + (b + ([s[j]] + c)));
    WithoutConcat(a, [s[i]] + (b + ([s[j]] + c)), x);
    WithoutConcat([s[i]], b + ([s[j]] + c), x);
    WithoutConcat(b, [s[j]] + c, x);
    WithoutConcat([s[j]], c, x);
    WithoutOne(s[i], x);
    WithoutOne(s[j], x);
    var k, l := |Without(a, x)|, |Without(a, x)| + 1 + |Without(b, x)|;
    assert Without(s, x)[k] == s[i] && Without(s, x)[l] == s[j];
  }

  // --- The links agree ---------------------------------------------------------------------------

  /** An object's parent is `n` exactly when it occurs in the list of `n`, and then it occurs once. */
  ghost predicate Linked<T>(g: Graph<T>) {
    && g.kids.Keys <= g.parent.Keys
    && (forall o :: o in g.parent && g.parent[o].Some? ==> g.parent[o].value in g.kids)
    && (forall n, o :: n in g.kids && o in g.kids[n] ==> o in g.parent)
    && (forall n, o {:trigger Agrees(g.parent, g.kids, n, o)} ::
          n in g.kids && o in g.parent ==> Agrees(g.parent, g.kids, n, o))
  }

  ghost predicate Agrees<T>(parent: map<T, Option<T>>, kids: map<T, seq<T>>, n: T, o: T)
    requires n in kids && o in parent
  {
    multiset(kids[n])[o] == if parent[o] == Some(n) then 1 else 0
  }

  lemma AgreesMeans<T>(g: Graph<T>, n: T, o: T)
    requires Linked(g) && n in g.kids && o in g.parent
    ensures o in g.kids[n] <==> g.parent[o] == Some(n)
  {
    assert Agrees(g.parent, g.kids, n, o);
    assert o in g.kids[n] <==> multiset(g.kids[n])[o] > 0;
  }

  lemma RemoveKeepsLinked<T>(g: Graph<T>, n: T, c: T)
    requires Linked(g) && n in g.kids && c in g.parent
    ensures Linked(Remove(g, n, c))
    ensures Remove(g, n, c).parent == if g.parent[c] == Some(n) then g.parent[c := None] else g.parent
    ensures Remove(g, n, c).kids.Keys == g.kids.Keys
  {
    AgreesMeans(g, n, c);
    var h := Remove(g, n, c);
    hide Without;
    forall m, o | m in h.kids && o in h.parent ensures Agrees(h.parent, h.kids, m, o) {
      assert Agrees(g.parent, g.kids, m, o);
    }
  }

  lemma UnhookKeepsLinked<T>(g: Graph<T>, c: T)
    requires Linked(g) && c in g.parent
    ensures Linked(Unhook(g, c)) && Unhook(g, c).parent == g.parent[c := None]
    ensures Unhook(g, c).kids.Keys == g.kids.Keys
  {
    if g.parent[c].Some? {
      RemoveKeepsLinked(g, g.parent[c].value, c);
    } else {
      assert g.parent[c := None] == g.parent;
    }
  }

  lemma HookKeepsLinked<T>(g: Graph<T>, n: T, c: T)
    requires Linked(g) && n in g.kids && c in g.parent && g.parent[c] == None
    ensures Linked(Graph(g.parent[c := Some(n)], g.kids[n := g.kids[n] + [c]]))
  {
    var h := Graph(g.parent[c := Some(n)], g.kids[n := g.kids[n] + [c]]);
    forall m, o | m in h.kids && o in h.parent ensures Agrees(h.parent, h.kids, m, o) {
      assert Agrees(g.parent, g.kids, m, o);
    }
  }

  lemma AddKeepsLinked<T>(g: Graph<T>, n: T, c: T)
    requires Linked(g) && n in g.kids && c in g.parent
    ensures Linked(Add(g, n, c)) && Add(g, n, c).parent == g.parent[c := Some(n)]
    ensures Add(g, n, c).kids.Keys == g.kids.Keys
  {
    hide Unhook, Linked;
    UnhookKeepsLinked(g, c);
    HookKeepsLinked(Unhook(g, c), n, c);
  }

  lemma CreateRoot<T>(g: Graph<T>, c: T, isNode: bool)
    requires Linked(g) && c !in g.parent
    ensures Linked(Graph(g.parent[c := None], if isNode then g.kids[c := []] else g.kids))
    ensures forall n :: n in g.kids ==> c !in g.kids[n]
  {
    var h := Graph(g.parent[c := None], if isNode then g.kids[c := []] else g.kids);
    forall m, o | m in h.kids && o in h.parent ensures Agrees(h.parent, h.kids, m, o) {
      if m in g.kids && o in g.parent {
        assert Agrees(g.parent, g.kids, m, o);
      }
    }
  }

  lemma CreateApart<T>(g: Graph<T>, c: T, isNode: bool, n: T)
    requires Linked(g) && c !in g.parent && n in g.kids
    ensures n != c && (if isNode then g.kids[c := []] else g.kids)[n] == g.kids[n]
  {
  }

  /** A noted parent that has not been told yet has nothing to remove. */
  lemma UnhookNothing<T>(g: Graph<T>, n: T, c: T)
    requires Parent(g, c) == Some(n) && n in g.kids && c !in g.kids[n]
    ensures Unhook(g, c) == g
  {
    assert g.kids[n := g.kids[n]] == g.kids;
  }

  lemma CreateKeepsLinked<T>(g: Graph<T>, c: T, isNode: bool, at: Option<T>)
    requires Linked(g) && c !in g.parent && (at.Some? ==> at.value in g.kids)
    ensures Linked(Create(g, c, isNode, at)) && Create(g, c, isNode, at).parent == g.parent[c := at]
  {
    hide Linked, Unhook;
    CreateRoot(g, c, isNode);
    if at.Some? {
      var g0 := Graph(g.parent[c := None], if isNode then g.kids[c := []] else g.kids);
      var n := at.value;
      var g1 := Graph(g.parent[c := at], g0.kids);
      CreateApart(g, c, isNode, n);
      UnhookNothing(g1, n, c);
      HookKeepsLinked(g0, n, c);
      assert g0.parent[c := Some(n)] == g.parent[c := at] == g1.parent[c := Some(n)];
      assert Create(g, c, isNode, at) == Graph(g.parent[c := at], g0.kids[n := g0.kids[n] + [c]]);
    }
  }

  lemma ResetKeepsLinked<T>(g: Graph<T>, c: T, at: Option<T>)
    requires Linked(g) && c in g.parent && (at.Some? ==> at.value in g.kids)
    ensures Linked(Reset(g, c, at)) && Reset(g, c, at).parent == g.parent[c := at]
  {
    hide Unhook, Linked, Add;
    UnhookKeepsLinked(g, c);
    if at.Some? {
      AddKeepsLinked(Unhook(g, c), at.value, c);
      assert g.parent[c := None][c := at] == g.parent[c := at];
    }
  }

  lemma DestroyKeepsLinked<T>(g: Graph<T>, x: T)
    requires Linked(g) && x in g.parent && g.parent[x] != Some(x)
    ensures Linked(Destroy(g, x))
    ensures Destroy(g, x).parent
         == map o | o in g.parent && o != x :: if g.parent[o] == Some(x) then None else g.parent[o]
  {
    var h := Destroy(g, x);
    DestroyIs(g, x);
    hide Destroy, Without, Linked, Agrees;
    DestroyAgrees(g, x, h);
    DestroyCloses(g, x, h);
    assert Linked(h) by {
      LinkedFrom(h);
    }
  }

  lemma LinkedFrom<T>(g: Graph<T>)
    requires g.kids.Keys <= g.parent.Keys
    requires forall o :: o in g.parent && g.parent[o].Some? ==> g.parent[o].value in g.kids
    requires forall n, o :: n in g.kids && o in g.kids[n] ==> o in g.parent
    requires forall n, o :: n in g.kids && o in g.parent ==> Agrees(g.parent, g.kids, n, o)
    ensures Linked(g)
  {
  }

  ghost predicate Destroyed<T>(g: Graph<T>, x: T, h: Graph<T>) {
    && x in g.parent && g.parent[x] != Some(x)
    && h.parent == (map o | o in g.parent && o != x :: if g.parent[o] == Some(x) then None else g.parent[o])
    && h.kids == (map n | n in g.kids && n != x :: if g.parent[x] == Some(n) then Without(g.kids[n], x) else g.kids[n])
  }

  lemma DestroyAgrees<T>(g: Graph<T>, x: T, h: Graph<T>)
    requires Linked(g) && Destroyed(g, x, h)
    ensures forall n, o :: n in h.kids && o in h.parent ==> Agrees(h.parent, h.kids, n, o)
  {
    hide Without;
    forall m, o | m in h.kids && o in h.parent ensures Agrees(h.parent, h.kids, m, o) {
      assert Agrees(g.parent, g.kids, m, o);
    }
  }

  lemma DestroyCloses<T>(g: Graph<T>, x: T, h: Graph<T>)
    requires Linked(g) && Destroyed(g, x, h)
    ensures h.kids.Keys <= h.parent.Keys
    ensures forall o :: o in h.parent && h.parent[o].Some? ==> h.parent[o].value in h.kids
    ensures forall n, o :: n in h.kids && o in h.kids[n] ==> o in h.parent
  {
    hide Without;
    forall n, o | n in h.kids && o in h.kids[n] ensures o in h.parent {
      AgreesMeans(g, n, x);
      assert o in g.kids[n];
      assert multiset(h.kids[n])[o] > 0;
    }
  }

  lemma OrphanIs<T>(g: Graph<T>, x: T)
    requires Linked(g) && x in g.parent
    ensures forall o :: o in g.parent ==> (o in Kids(g, x) <==> g.parent[o] == Some(x))
  {
    forall o | o in g.parent ensures o in Kids(g, x) <==> g.parent[o] == Some(x) {
      if x in g.kids {
        AgreesMeans(g, x, o);
      }
    }
  }

  lemma DestroyIs<T>(g: Graph<T>, x: T)
    requires Linked(g) && x in g.parent && g.parent[x] != Some(x)
    ensures Destroy(g, x).parent
         == map o | o in g.parent && o != x :: if g.parent[o] == Some(x) then None else g.parent[o]
    ensures Destroy(g, x).kids
         == map n | n in g.kids && n != x :: if g.parent[x] == Some(n) then Without(g.kids[n], x) else g.kids[n]
  {
    hide Without, Linked;
    OrphanIs(g, x);
    var g1 := Orphan(g, x);
    if g.parent[x].Some? {
      var m := g.parent[x].value;
      NodeParent(g, x);
      AgreesMeans(g, m, x);
      assert Unhook(g1, x) == Graph(g1.parent[x := None], g.kids[m := Without(g.kids[m], x)]);
    } else {
      assert Unhook(g1, x) == g1;
    }
  }

  lemma NodeParent<T>(g: Graph<T>, x: T)
    requires Linked(g) && x in g.parent && g.parent[x].Some?
    ensures g.parent[x].value in g.kids
  {
  }

  /** The child ends up last in the list of the node and nowhere else; all other children keep their order. */
  lemma AddMovesToTheEnd<T>(g: Graph<T>, n: T, c: T)
    requires Linked(g) && n in g.kids && c in g.parent
    ensures Add(g, n, c).kids
         == map m | m in g.kids :: if m == n then Without(g.kids[m], c) + [c] else Without(g.kids[m], c)
  {
    hide Without;
    UnhookRemovesEverywhere(g, c);
    UnhookKeepsLinked(g, c);
    hide Linked, Unhook;
  }

  /** A new object stands behind its siblings, and nothing else in any list moves. */
  lemma CreateAppends<T>(g: Graph<T>, c: T, isNode: bool, at: Option<T>)
    requires Linked(g) && c !in g.parent && (at.Some? ==> at.value in g.kids)
    ensures Create(g, c, isNode, at).kids
         == map m | m in g.kids.Keys + (if isNode then {c} else {}) ::
              if m !in g.kids then [] else if at == Some(m) then g.kids[m] + [c] else g.kids[m]
  {
    CreateRoot(g, c, isNode);
    var kids := if isNode then g.kids[c := []] else g.kids;
    assert c !in g.kids;
    if at.Some? {
      CreateApart(g, c, isNode, at.value);
      hide Linked, Unhook;
      UnhookNothing(Graph(g.parent[c := at], kids), at.value, c);
    }
  }

  /** A moved object is last in its new list and in no other one. */
  lemma ResetMovesToTheEnd<T>(g: Graph<T>, c: T, at: Option<T>)
    requires Linked(g) && c in g.parent && (at.Some? ==> at.value in g.kids)
    ensures Reset(g, c, at).kids.Keys == g.kids.Keys
    ensures forall m :: m in g.kids ==>
              Reset(g, c, at).kids[m] == Without(g.kids[m], c) + if at == Some(m) then [c] else []
  {
    hide Without, Unhook, Linked, Add;
    UnhookRemovesEverywhere(g, c);
    UnhookKeepsLinked(g, c);
    if at.Some? {
      AddMovesToTheEnd(Unhook(g, c), at.value, c);
      forall m | m in g.kids ensures Without(Without(g.kids[m], c), c) == Without(g.kids[m], c) {
        WithoutTwice(g.kids[m], c);
      }
    }
  }

  lemma WithoutTwice<T>(s: seq<T>, x: T)
    ensures Without(Without(s, x), x) == Without(s, x)
  {
    assert multiset(Without(s, x))[x] == 0;
  }

  /** A removed object leaves the node's list, and a destroyed one all of them; the others keep their order. */
  lemma RemoveLeavesOthers<T>(g: Graph<T>, n: T, c: T)
    requires Linked(g) && n in g.kids && c in g.parent
    ensures Remove(g, n, c).kids == map m | m in g.kids :: if m == n then Without(g.kids[m], c) else g.kids[m]
  {
    hide Without;
  }

  lemma DestroyLeavesOthers<T>(g: Graph<T>, x: T)
    requires Linked(g) && x in g.parent && g.parent[x] != Some(x)
    ensures Destroy(g, x).kids.Keys == g.kids.Keys - {x}
    ensures forall m :: m in g.kids && m != x ==> Destroy(g, x).kids[m] == Without(g.kids[m], x)
  {
    hide Without, Destroy;
    DestroyIs(g, x);
    forall m | m in g.kids && g.parent[x] != Some(m) ensures Without(g.kids[m], x) == g.kids[m] {
      AgreesMeans(g, m, x);
    }
  }

  lemma UnhookRemovesEverywhere<T>(g: Graph<T>, c: T)
    requires Linked(g) && c in g.parent
    ensures Unhook(g, c).kids == map m | m in g.kids :: Without(g.kids[m], c)
  {
    hide Without;
    forall m | m in g.kids && g.parent[c] != Some(m) ensures Without(g.kids[m], c) == g.kids[m] {
      AgreesMeans(g, m, c);
    }
  }
}
