/** Qualified names of the objects in a tree, and the look-up that takes a name apart again. */
module Naming {
  import opened Bytes
  import opened Links
  import opened Ancestry
  import PublisherSpec

  type Name = seq<byte>

  /** The name of an object behind the names of its ancestors, from the root on. */
  ghost function FqName<T>(g: Graph<T>, names: map<T, Name>, o: T, sep: byte): Name
    requires Rooted(g.parent, o)
    requires Named(g, names) && o in g.parent
    decreases Height(g.parent, o)
  {
    if g.parent[o].Some? then
      HeightStep(g.parent, o);
      FqName(g, names, g.parent[o].value, sep) + [sep] + names[o]
    else names[o]
  }

  /** Every object has a name, and a parent is an object. */
  ghost predicate Named<T>(g: Graph<T>, names: map<T, Name>) {
    && g.parent.Keys <= names.Keys
    && forall o :: o in g.parent && g.parent[o].Some? ==> g.parent[o].value in g.parent
  }

  /** The position of the first separator, or the length. */
  function Find(s: seq<byte>, sep: byte): (i: nat)
    ensures i <= |s| && sep !in s[..i] && (i < |s| ==> s[i] == sep)
  {
    if s == [] || s[0] == sep then 0
    else
      assert forall i: nat :: i < |s| ==> s[..i + 1] == [s[0]] + s[1..][..i];
      1 + Find(s[1..], sep)
  }

  function FindChild<T(==)>(names: map<T, Name>, kids: seq<T>, name: Name): Option<T> {
    if kids == [] then None
    else if kids[0] in names && names[kids[0]] == name then Some(kids[0])
    else FindChild(names, kids[1..], name)
  }

  function FindDescendant<T(==)>(g: Graph<T>, names: map<T, Name>, n: T, uri: Name, sep: byte): Option<T>
    decreases |uri|
  {
    var i := Find(uri, sep);
    var obj := FindChild(names, Kids(g, n), uri[..i]);
    if i == |uri| then obj
    else if i + 1 == |uri| then None
    else if obj.Some? && obj.value in g.kids then FindDescendant(g, names, obj.value, uri[i + 1..], sep)
    else None
  }

  function FindObject<T(==)>(g: Graph<T>, names: map<T, Name>, root: T, uri: Name, sep: byte): Option<T>
    requires root in names
  {
    if uri == [] then None
    else
      var u := if uri[0] == sep then uri[1..] else uri;
      var i := Find(u, sep);
      if names[root] != u[..i] then None
      else if i == |u| then Some(root)
      else FindDescendant(g, names, root, u[i + 1..], sep)
  }

  /** Names are not empty, hold no separator, and differ among siblings. */
  ghost predicate WellNamed<T>(g: Graph<T>, names: map<T, Name>, sep: byte) {
    && Forest(g) && Named(g, names)
    && (forall o :: o in g.parent ==> names[o] != [] && sep !in names[o])
    && (forall n, i, j :: n in g.kids && 0 <= i < j < |g.kids[n]| ==> names[g.kids[n][i]] != names[g.kids[n][j]])
  }

  lemma {:induction false} FindIs(a: seq<byte>, sep: byte, b: seq<byte>)
    requires sep !in a
    ensures Find(a + [sep] + b, sep) == |a| && Find(a, sep) == |a|
  {
    if a == [] {
    } else {
      assert (a + [sep] + b)[1..] == a[1..] + [sep] + b;
      FindIs(a[1..], sep, b);
    }
  }

  lemma {:induction false} FindChildSound<T>(names: map<T, Name>, kids: seq<T>, name: Name)
    ensures FindChild(names, kids, name).Some? ==>
              var o := FindChild(names, kids, name).value; o in kids && o in names && names[o] == name
  {
    if kids != [] {
      FindChildSound(names, kids[1..], name);
    }
  }

  /** The first child of that name is found, and none only if there is no such child. */
  lemma {:induction false} FindChildIsFirst<T>(names: map<T, Name>, kids: seq<T>, name: Name) returns (k: nat)
    requires forall i :: 0 <= i < |kids| ==> kids[i] in names
    ensures k <= |kids| && forall i :: 0 <= i < k ==> names[kids[i]] != name
    ensures FindChild(names, kids, name) == if k < |kids| then Some(kids[k]) else None
    ensures k < |kids| ==> names[kids[k]] == name
  {
    k := 0;
    if kids != [] && names[kids[0]] != name {
      k := FindChildIsFirst(names, kids[1..], name);
      k := k + 1;
      forall i | 0 <= i < k ensures names[kids[i]] != name {
        if i > 0 {
          assert kids[1..][i - 1] == kids[i];
        }
      }
    }
  }

  lemma {:induction false} FindChildFinds<T>(names: map<T, Name>, kids: seq<T>, k: nat)
    requires k < |kids| && forall i :: 0 <= i < |kids| ==> kids[i] in names
    requires forall i, j :: 0 <= i < j < |kids| ==> names[kids[i]] != names[kids[j]]
    ensures FindChild(names, kids, names[kids[k]]) == Some(kids[k])
  {
    if k > 0 {
      assert names[kids[0]] != names[kids[k]];
      assert kids[1..][k - 1] == kids[k];
      FindChildFinds(names, kids[1..], k - 1);
    }
  }

  lemma ChildIsFound<T>(g: Graph<T>, names: map<T, Name>, o: T, sep: byte)
    requires WellNamed(g, names, sep) && o in g.parent && g.parent[o].Some?
    ensures var n := g.parent[o].value;
            n in g.kids && n in g.parent && FindChild(names, g.kids[n], names[o]) == Some(o)
  {
    hide Acyclic, FindChild;
    var n := g.parent[o].value;
    AgreesMeans(g, n, o);
    var k :| 0 <= k < |g.kids[n]| && g.kids[n][k] == o;
    FindChildFinds(names, g.kids[n], k);
  }

  lemma FoundChild<T>(g: Graph<T>, names: map<T, Name>, n: T, name: Name, sep: byte)
    requires WellNamed(g, names, sep) && FindChild(names, Kids(g, n), name).Some?
    ensures var o := FindChild(names, Kids(g, n), name).value;
            n in g.kids && n in g.parent && o in g.parent && g.parent[o] == Some(n) && names[o] == name
  {
    hide Acyclic, FindChild;
    FindChildSound(names, Kids(g, n), name);
    AgreesMeans(g, n, FindChild(names, Kids(g, n), name).value);
  }

  lemma RootedNamed<T>(g: Graph<T>, names: map<T, Name>, o: T, sep: byte)
    requires WellNamed(g, names, sep) && o in g.parent
    ensures Rooted(g.parent, o) && names[o] != [] && sep !in names[o]
  {
  }

  lemma FqNameStep<T>(g: Graph<T>, names: map<T, Name>, o: T, sep: byte)
    requires WellNamed(g, names, sep) && o in g.parent
    ensures Rooted(g.parent, o)
    ensures g.parent[o].Some? ==>
              && Rooted(g.parent, g.parent[o].value) && g.parent[o].value in g.parent
              && FqName(g, names, o, sep) == FqName(g, names, g.parent[o].value, sep) + [sep] + names[o]
    ensures g.parent[o].None? ==> FqName(g, names, o, sep) == names[o]
  {
    hide Linked;
    if g.parent[o].Some? {
      HeightStep(g.parent, o);
    }
  }

  // --- A name that is found is the name of what is found ---------------------------------------------

  lemma {:induction false} DescendantSound<T>(g: Graph<T>, names: map<T, Name>, n: T, uri: Name, sep: byte)
    requires WellNamed(g, names, sep) && n in g.parent && FindDescendant(g, names, n, uri, sep).Some?
    ensures var o := FindDescendant(g, names, n, uri, sep).value;
            && o in g.parent && Rooted(g.parent, o) && Rooted(g.parent, n)
            && FqName(g, names, o, sep) == FqName(g, names, n, sep) + [sep] + uri
            && RootOf(g.parent, o) == RootOf(g.parent, n)
    decreases |uri|
  {
    hide WellNamed, Named, FindChild, Rooted, FqName, RootOf;
    NamedFrom(g, names, sep);
    FqNameStep(g, names, n, sep);
    var i := Find(uri, sep);
    var head := uri[..i];
    var found := FindChild(names, Kids(g, n), head);
    assert found.Some?;
    var obj := found.value;
    FoundChild(g, names, n, head, sep);
    FqNameStep(g, names, obj, sep);
    RootStep(g.parent, obj);
    if i == |uri| {
      assert head == uri;
    } else {
      var rest := uri[i + 1..];
      DescendantSound(g, names, obj, rest, sep);
      assert uri == head + [sep] + rest;
      var a, b := FqName(g, names, n, sep), FqName(g, names, obj, sep);
      assert b + [sep] + rest == a + [sep] + (head + [sep] + rest);
    }
  }

  lemma NamedFrom<T>(g: Graph<T>, names: map<T, Name>, sep: byte)
    requires WellNamed(g, names, sep)
    ensures Named(g, names)
  {
  }

  lemma RootStep<T>(p: map<T, Option<T>>, o: T)
    requires Rooted(p, o) && o in p && p[o].Some?
    ensures Rooted(p, p[o].value) && RootOf(p, o) == RootOf(p, p[o].value)
  {
    HeightStep(p, o);
  }

  // --- The name of an object finds it --------------------------------------------------------------

  /** Looking up a longer name goes on from where the shorter one led. */
  lemma {:induction false} DescendantAppend<T>(g: Graph<T>, names: map<T, Name>, n: T, uri: Name, o: T, sep: byte)
    requires WellNamed(g, names, sep) && o in g.parent && g.parent[o].Some?
    requires FindDescendant(g, names, n, uri, sep) == g.parent[o]
    ensures FindDescendant(g, names, n, uri + [sep] + names[o], sep) == Some(o)
    decreases |uri|
  {
    hide WellNamed, Named, FindChild;
    NamedFrom(g, names, sep);
    RootedNamed(g, names, o, sep);
    ChildIsFound(g, names, o, sep);
    var i := Find(uri, sep);
    var head, longer := uri[..i], uri + [sep] + names[o];
    if i == |uri| {
      assert head == uri;
      FindIs(uri, sep, names[o]);
      assert longer[..i] == uri && longer[i + 1..] == names[o];
      FindIs(names[o], sep, []);
      assert names[o][..|names[o]|] == names[o];
    } else {
      var rest := uri[i + 1..];
      assert longer == head + [sep] + (rest + [sep] + names[o]);
      FindIs(head, sep, rest + [sep] + names[o]);
      assert longer[..i] == head && longer[i + 1..] == rest + [sep] + names[o];
      DescendantAppend(g, names, FindChild(names, Kids(g, n), head).value, rest, o, sep);
    }
  }

  /** The name without the root's part in front. */
  ghost function Relative<T>(g: Graph<T>, names: map<T, Name>, o: T, sep: byte): Name
    requires Rooted(g.parent, o)
    requires Named(g, names) && o in g.parent && g.parent[o].Some?
    decreases Height(g.parent, o)
  {
    HeightStep(g.parent, o);
    var n := g.parent[o].value;
    if g.parent[n].Some? then Relative(g, names, n, sep) + [sep] + names[o] else names[o]
  }

  lemma {:induction false} RelativeIsRest<T>(g: Graph<T>, names: map<T, Name>, o: T, sep: byte)
    requires WellNamed(g, names, sep) && o in g.parent && g.parent[o].Some?
    ensures Rooted(g.parent, o) && RootOf(g.parent, o) in g.parent
    ensures FqName(g, names, o, sep) == names[RootOf(g.parent, o)] + [sep] + Relative(g, names, o, sep)
    decreases Height(g.parent, o)
  {
    hide WellNamed, Named, FqName, Height;
    NamedFrom(g, names, sep);
    FqNameStep(g, names, o, sep);
    var n := g.parent[o].value;
    FqNameStep(g, names, n, sep);
    RootStep(g.parent, o);
    if g.parent[n].Some? {
      HeightStep(g.parent, o);
      RelativeIsRest(g, names, n, sep);
      var root := names[RootOf(g.parent, n)];
      assert root + [sep] + Relative(g, names, n, sep) + [sep] + names[o]
          == root + [sep] + (Relative(g, names, n, sep) + [sep] + names[o]);
    }
  }

  lemma {:induction false} RelativeIsFound<T>(g: Graph<T>, names: map<T, Name>, o: T, sep: byte)
    requires WellNamed(g, names, sep) && o in g.parent && g.parent[o].Some?
    ensures Rooted(g.parent, o) && Named(g, names) && Relative(g, names, o, sep) != []
    ensures FindDescendant(g, names, RootOf(g.parent, o), Relative(g, names, o, sep), sep) == Some(o)
    decreases Height(g.parent, o)
  {
    hide WellNamed, Named, FindChild, Height, FindDescendant;
    NamedFrom(g, names, sep);
    FqNameStep(g, names, o, sep);
    RootedNamed(g, names, o, sep);
    var n := g.parent[o].value;
    FqNameStep(g, names, n, sep);
    RootStep(g.parent, o);
    if g.parent[n].Some? {
      HeightStep(g.parent, o);
      RelativeIsFound(g, names, n, sep);
      DescendantAppend(g, names, RootOf(g.parent, n), Relative(g, names, n, sep), o, sep);
    } else {
      DescendantChild(g, names, o, sep);
    }
  }

  lemma DescendantChild<T>(g: Graph<T>, names: map<T, Name>, o: T, sep: byte)
    requires WellNamed(g, names, sep) && o in g.parent && g.parent[o].Some?
    ensures FindDescendant(g, names, g.parent[o].value, names[o], sep) == Some(o)
  {
    hide FindChild;
    ChildIsFound(g, names, o, sep);
    FindIs(names[o], sep, []);
    assert names[o][..|names[o]|] == names[o];
  }

  /** Looking up an object's own qualified name, with or without a separator in front, finds the object. */
  lemma NameFindsObject<T>(g: Graph<T>, names: map<T, Name>, o: T, sep: byte)
    requires WellNamed(g, names, sep) && o in g.parent
    ensures Rooted(g.parent, o) && RootOf(g.parent, o) in names
    ensures FindObject(g, names, RootOf(g.parent, o), FqName(g, names, o, sep), sep) == Some(o)
    ensures FindObject(g, names, RootOf(g.parent, o), [sep] + FqName(g, names, o, sep), sep) == Some(o)
  {
    hide WellNamed, Named, FindChild, Height, FindDescendant, FqName, Relative;
    NamedFrom(g, names, sep);
    FqNameStep(g, names, o, sep);
    RootedNamed(g, names, o, sep);
    var full := FqName(g, names, o, sep);
    assert ([sep] + full)[1..] == full;
    if g.parent[o].Some? {
      var rest := Relative(g, names, o, sep);
      RelativeIsRest(g, names, o, sep);
      RelativeIsFound(g, names, o, sep);
      var root := names[RootOf(g.parent, o)];
      InNames(g, names, RootOf(g.parent, o));
      RootedNamed(g, names, RootOf(g.parent, o), sep);
      assert full == root + [sep] + rest;
      FindIs(root, sep, rest);
      assert full[..|root|] == root && full[|root| + 1..] == rest && full[0] == root[0];
    } else {
      InNames(g, names, o);
      FindIs(full, sep, []);
      assert full[..|full|] == full;
    }
  }

  lemma InNames<T>(g: Graph<T>, names: map<T, Name>, o: T)
    requires Named(g, names) && o in g.parent
    ensures o in names
  {
  }

  /** Whatever is found was named in full, with at most one separator in front. */
  lemma FoundIsNamed<T>(g: Graph<T>, names: map<T, Name>, root: T, uri: Name, sep: byte)
    requires WellNamed(g, names, sep) && root in g.parent && g.parent[root].None? && root in names
    requires FindObject(g, names, root, uri, sep).Some?
    ensures var o := FindObject(g, names, root, uri, sep).value;
            && o in g.parent && Rooted(g.parent, o) && RootOf(g.parent, o) == root
            && (uri == FqName(g, names, o, sep) || uri == [sep] + FqName(g, names, o, sep))
  {
    hide WellNamed, Named, FindChild, Height, FindDescendant, FqName;
    NamedFrom(g, names, sep);
    FqNameStep(g, names, root, sep);
    var u := if uri[0] == sep then uri[1..] else uri;
    var i := Find(u, sep);
    assert uri == u || uri == [sep] + u;
    if i == |u| {
      assert u[..i] == u;
    } else {
      var rest := u[i + 1..];
      DescendantSound(g, names, root, rest, sep);
      assert u == u[..i] + [sep] + rest;
    }
  }

  /** Look-up and naming are inverse to each other. */
  lemma LookupIffName<T>(g: Graph<T>, names: map<T, Name>, root: T, uri: Name, o: T, sep: byte)
    requires WellNamed(g, names, sep) && root in g.parent && g.parent[root].None? && root in names && o in g.parent
    ensures Rooted(g.parent, o) && Named(g, names)
    ensures FindObject(g, names, root, uri, sep) == Some(o) <==>
              && RootOf(g.parent, o) == root
              && (uri == FqName(g, names, o, sep) || uri == [sep] + FqName(g, names, o, sep))
  {
    hide WellNamed, Named, FindObject, FqName;
    NamedFrom(g, names, sep);
    NameFindsObject(g, names, o, sep);
    if FindObject(g, names, root, uri, sep) == Some(o) {
      FoundIsNamed(g, names, root, uri, sep);
    }
  }

  /** The URI that the publisher makes of an object's name leads from the root back to the object. */
  lemma PublishedNameResolves<T>(g: Graph<T>, names: map<T, Name>, o: T)
    requires WellNamed(g, names, 58) && o in g.parent && g.parent[o].Some?
    ensures Rooted(g.parent, o) && RootOf(g.parent, o) in names && Named(g, names)
    ensures var root := RootOf(g.parent, o);
            FindDescendant(g, names, root, PublisherSpec.Cut(names[root], FqName(g, names, o, 58)), 58) == Some(o)
  {
    hide WellNamed, Named, FqName, Relative, FindDescendant;
    NamedFrom(g, names, 58);
    RelativeIsRest(g, names, o, 58);
    RelativeIsFound(g, names, o, 58);
    var root, rest := RootOf(g.parent, o), Relative(g, names, o, 58);
    InNames(g, names, root);
    assert (names[root] + [58] + rest)[|names[root]| + 1..] == rest;
  }

  /** So different objects of a tree are published under different URIs. */
  lemma PublishedNamesDiffer<T>(g: Graph<T>, names: map<T, Name>, o1: T, o2: T)
    requires WellNamed(g, names, 58) && o1 in g.parent && o2 in g.parent && o1 != o2
    requires g.parent[o1].Some? && g.parent[o2].Some?
    ensures Rooted(g.parent, o1) && Rooted(g.parent, o2) && Named(g, names) && RootOf(g.parent, o1) in names
    ensures RootOf(g.parent, o1) == RootOf(g.parent, o2) ==>
              var name := names[RootOf(g.parent, o1)];
              PublisherSpec.Cut(name, FqName(g, names, o1, 58)) != PublisherSpec.Cut(name, FqName(g, names, o2, 58))
  {
    hide WellNamed, Named, FqName, FindDescendant, PublisherSpec.Cut;
    PublishedNameResolves(g, names, o1);
    PublishedNameResolves(g, names, o2);
  }

  lemma FqNamesDiffer<T>(g: Graph<T>, names: map<T, Name>, o1: T, o2: T, sep: byte)
    requires WellNamed(g, names, sep) && o1 in g.parent && o2 in g.parent && o1 != o2
    ensures Rooted(g.parent, o1) && Rooted(g.parent, o2) && Named(g, names)
    ensures RootOf(g.parent, o1) == RootOf(g.parent, o2) ==>
              FqName(g, names, o1, sep) != FqName(g, names, o2, sep)
  {
    hide WellNamed, Named, FqName, FindObject;
    NamedFrom(g, names, sep);
    NameFindsObject(g, names, o1, sep);
    NameFindsObject(g, names, o2, sep);
  }
}
