/** Paths to the root, and what the operations of the tree do to them. */
module Ancestry {
  import opened Bytes
  import opened Links

  /** The object `k` steps above `o`; None beyond the root. */
  function Up<T(==)>(p: map<T, Option<T>>, o: T, k: nat): Option<T> {
    if k == 0 then Some(o)
    else if o in p && p[o].Some? then Up(p, p[o].value, k - 1)
    else None
  }

  ghost predicate Rooted<T>(p: map<T, Option<T>>, o: T) {
    exists k: nat :: Up(p, o, k).None?
  }

  ghost predicate Acyclic<T>(p: map<T, Option<T>>) {
    forall o :: o in p ==> Rooted(p, o)
  }

  /** `a` is `o` or one of its ancestors. */
  ghost predicate Above<T>(p: map<T, Option<T>>, a: T, o: T) {
    exists k: nat :: Up(p, o, k) == Some(a)
  }

  ghost predicate Forest<T>(g: Graph<T>) {
    Linked(g) && Acyclic(g.parent)
  }

  lemma {:induction false} UpPlus<T>(p: map<T, Option<T>>, o: T, j: nat, k: nat)
    ensures Up(p, o, j + k) == if Up(p, o, j).Some? then Up(p, Up(p, o, j).value, k) else None
    decreases j
  {
    if j > 0 && o in p && p[o].Some? {
      UpPlus(p, p[o].value, j - 1, k);
    }
  }

  /** Walking upwards from an object that reaches a root never comes back to it. */
  lemma {:induction false} NoLoop<T>(p: map<T, Option<T>>, o: T, k: nat, m: nat)
    requires Up(p, o, k).None? && m > 0
    ensures Up(p, o, m) != Some(o)
    decreases k
  {
    if Up(p, o, m) == Some(o) {
      if m <= k {
        UpPlus(p, o, m, k - m);
        NoLoop(p, o, k - m, m);
      } else {
        UpPlus(p, o, k, m - k);
      }
    }
  }

  /** The first `k` objects on the path do not include `c`. */
  ghost predicate Avoids<T>(p: map<T, Option<T>>, c: T, o: T, k: nat) {
    forall j: nat :: j < k ==> Up(p, o, j) != Some(c)
  }

  /** The first place among `l` where the path meets `c`, or `l`. */
  lemma {:induction false} FirstMeeting<T>(p: map<T, Option<T>>, c: T, o: T, l: nat) returns (j: nat)
    ensures j <= l && Avoids(p, c, o, j) && (j < l ==> Up(p, o, j) == Some(c))
  {
    if l == 0 {
      j := 0;
    } else {
      j := FirstMeeting(p, c, o, l - 1);
      if j == l - 1 && Up(p, o, j) != Some(c) {
        j := l;
      }
    }
  }

  /** A path that does not meet `c` is the same when the parent of `c` changes. */
  lemma {:induction false} UpElsewhere<T>(p: map<T, Option<T>>, q: map<T, Option<T>>, c: T, o: T, k: nat)
    requires forall x :: x != c ==> (x in p <==> x in q) && (x in p ==> p[x] == q[x])
    requires Avoids(p, c, o, k)
    ensures Up(p, o, k) == Up(q, o, k)
    decreases k
  {
    if k > 0 {
      assert Up(p, o, 0) == Some(o);
      if o in p && p[o].Some? {
        forall j: nat | j < k - 1 ensures Up(p, p[o].value, j) != Some(c) {
          assert Up(p, o, j + 1) == Up(p, p[o].value, j);
        }
        UpElsewhere(p, q, c, p[o].value, k - 1);
      }
    }
  }

  /** Hanging `c` below `n` leaves every path finite, unless `c` is `n` or an ancestor of it. */
  lemma AttachKeeps<T>(p: map<T, Option<T>>, c: T, n: T)
    requires Acyclic(p) && n in p && !Above(p, c, n)
    ensures Acyclic(p[c := Some(n)])
  {
    var q := p[c := Some(n)];
    var k: nat :| Up(p, n, k).None?;
    UpElsewhere(p, q, c, n, k);
    assert Up(q, c, k + 1) == Up(q, n, k);
    forall o | o in q ensures Rooted(q, o) {
      if o != c {
        AttachedPath(p, c, n, o, k);
      }
    }
  }

  lemma AttachedPath<T>(p: map<T, Option<T>>, c: T, n: T, o: T, k: nat)
    requires Acyclic(p) && o in p && Up(p[c := Some(n)], c, k + 1).None?
    ensures Rooted(p[c := Some(n)], o)
  {
    var q := p[c := Some(n)];
    hide Up, Avoids;
    var l: nat :| Up(p, o, l).None?;
    var j := FirstMeeting(p, c, o, l);
    UpElsewhere(p, q, c, o, j);
    if j < l {
      UpPlus(q, o, j, k + 1);
    }
  }

  /** Hanging `c` below itself or one of its descendants closes a loop. */
  lemma AttachBreaks<T>(p: map<T, Option<T>>, c: T, n: T)
    requires Acyclic(p) && c in p && Above(p, c, n)
    ensures !Acyclic(p[c := Some(n)])
  {
    var q := p[c := Some(n)];
    var k: nat :| Up(p, n, k) == Some(c);
    var j := FirstMeeting(p, c, n, k + 1);
    UpElsewhere(p, q, c, n, j);
    assert Up(q, c, j + 1) == Up(q, n, j) == Some(c);
    if l: nat :| Up(q, c, l).None? {
      NoLoop(q, c, l, j + 1);
    }
  }

  ghost predicate Cuts<T>(p: map<T, Option<T>>, q: map<T, Option<T>>) {
    q.Keys <= p.Keys && forall o :: o in q ==> q[o] == None || q[o] == p[o]
  }

  lemma {:induction false} CutPath<T>(p: map<T, Option<T>>, q: map<T, Option<T>>, o: T, k: nat)
    requires Cuts(p, q) && Up(p, o, k).None?
    ensures Up(q, o, k).None?
    decreases k
  {
    if o in q && q[o].Some? {
      CutPath(p, q, q[o].value, k - 1);
    }
  }

  /** Taking links away leaves every path finite. */
  lemma CutKeeps<T>(p: map<T, Option<T>>, q: map<T, Option<T>>)
    requires Acyclic(p) && Cuts(p, q)
    ensures Acyclic(q)
  {
    forall o | o in q ensures Rooted(q, o) {
      var k: nat :| Up(p, o, k).None?;
      CutPath(p, q, o, k);
    }
  }

  // --- The operations keep the forest ------------------------------------------------------------

  datatype Op<T> =
    | Creation(c: T, isNode: bool, at: Option<T>)
    | Addition(n: T, c: T)
    | Removal(n: T, c: T)
    | Resetting(c: T, at: Option<T>)
    | Destruction(x: T)

  function Apply<T(==)>(g: Graph<T>, op: Op<T>): Graph<T> {
    match op
    case Creation(c, isNode, at) => Create(g, c, isNode, at)
    case Addition(n, c) => Add(g, n, c)
    case Removal(n, c) => Remove(g, n, c)
    case Resetting(c, at) => Reset(g, c, at)
    case Destruction(x) => Destroy(g, x)
  }

  /** The objects named are live (a new one is not), and nothing is hung below its own descendants. */
  ghost predicate Legal<T>(g: Graph<T>, op: Op<T>) {
    match op
    case Creation(c, _, at) => c !in g.parent && (at.Some? ==> at.value in g.kids)
    case Addition(n, c) => n in g.kids && c in g.parent && !Above(g.parent, c, n)
    case Removal(n, c) => n in g.kids && c in g.parent
    case Resetting(c, at) => c in g.parent && (at.Some? ==> at.value in g.kids && !Above(g.parent, c, at.value))
    case Destruction(x) => x in g.parent
  }

  lemma {:induction false} UpStays<T>(g: Graph<T>, o: T, k: nat)
    requires Linked(g) && o in g.parent && Up(g.parent, o, k).Some?
    ensures Up(g.parent, o, k).value in g.parent
    decreases k
  {
    if k > 0 {
      UpStays(g, g.parent[o].value, k - 1);
    }
  }

  lemma NewIsNotAbove<T>(g: Graph<T>, c: T, n: T)
    requires Linked(g) && n in g.parent && c !in g.parent
    ensures !Above(g.parent, c, n)
  {
    if k: nat :| Up(g.parent, n, k) == Some(c) {
      UpStays(g, n, k);
    }
  }

  lemma NotItsOwnParent<T>(g: Graph<T>, x: T)
    requires Forest(g) && x in g.parent
    ensures g.parent[x] != Some(x)
  {
    var k: nat :| Up(g.parent, x, k).None?;
    NoLoop(g.parent, x, k, 1);
  }

  /** Every operation keeps the links in agreement and the paths finite. */
  lemma StepKeepsForest<T>(g: Graph<T>, op: Op<T>)
    requires Forest(g) && Legal(g, op)
    ensures Forest(Apply(g, op))
  {
    hide Create, Add, Remove, Reset, Destroy, Above, Acyclic;
    match op
    case Creation(c, isNode, at) =>
      CreateKeepsLinked(g, c, isNode, at);
      if at.Some? {
        NewIsNotAbove(g, c, at.value);
        AttachKeeps(g.parent, c, at.value);
      } else {
        CreateRootKeeps(g, c);
      }
    case Addition(n, c) =>
      AddKeepsLinked(g, n, c);
      AttachKeeps(g.parent, c, n);
    case Removal(n, c) =>
      RemoveKeepsLinked(g, n, c);
      CutKeeps(g.parent, Remove(g, n, c).parent);
    case Resetting(c, at) =>
      ResetKeepsLinked(g, c, at);
      if at.Some? {
        AttachKeeps(g.parent, c, at.value);
      } else {
        CutKeeps(g.parent, Reset(g, c, at).parent);
      }
    case Destruction(x) =>
      NotItsOwnParent(g, x);
      DestroyKeepsLinked(g, x);
      CutKeeps(g.parent, Destroy(g, x).parent);
  }

  lemma CreateRootKeeps<T>(g: Graph<T>, c: T)
    requires Forest(g) && c !in g.parent
    ensures Acyclic(g.parent[c := None])
  {
    var q := g.parent[c := None];
    forall o | o in q ensures Rooted(q, o) {
      if o == c {
        assert Up(q, c, 1) == None;
      } else {
        var k: nat :| Up(g.parent, o, k).None?;
        forall j: nat | j < k ensures Up(g.parent, o, j) != Some(c) {
          if Up(g.parent, o, j) == Some(c) {
            UpStays(g, o, j);
          }
        }
        UpElsewhere(g.parent, q, c, o, k);
      }
    }
  }

  /** Adding a child keeps the forest exactly when the child is not the node or one of its ancestors. */
  lemma AddIffNotAbove<T>(g: Graph<T>, n: T, c: T)
    requires Forest(g) && n in g.kids && c in g.parent
    ensures Forest(Add(g, n, c)) <==> !Above(g.parent, c, n)
  {
    hide Add, Above, Acyclic;
    AddKeepsLinked(g, n, c);
    if Above(g.parent, c, n) {
      AttachBreaks(g.parent, c, n);
    } else {
      AttachKeeps(g.parent, c, n);
    }
  }

  /** The same for moving an object below a node; making it a root never does any harm. */
  lemma ResetIffNotAbove<T>(g: Graph<T>, c: T, at: Option<T>)
    requires Forest(g) && c in g.parent && (at.Some? ==> at.value in g.kids)
    ensures Forest(Reset(g, c, at)) <==> !(at.Some? && Above(g.parent, c, at.value))
  {
    hide Reset, Above, Acyclic;
    ResetKeepsLinked(g, c, at);
    if at.None? {
      CutKeeps(g.parent, g.parent[c := None]);
    } else if Above(g.parent, c, at.value) {
      AttachBreaks(g.parent, c, at.value);
    } else {
      AttachKeeps(g.parent, c, at.value);
    }
  }

  function Run<T(==)>(ops: seq<Op<T>>): Graph<T> {
    if ops == [] then Graph(map[], map[]) else Apply(Run(ops[..|ops| - 1]), ops[|ops| - 1])
  }

  ghost predicate LegalRun<T>(ops: seq<Op<T>>) {
    forall i :: 0 <= i < |ops| ==> Legal(Run(ops[..i]), ops[i])
  }

  /** Over every run of constructions, additions, removals, moves and destructions the forest is kept. */
  lemma {:induction false} RunKeepsForest<T>(ops: seq<Op<T>>)
    requires LegalRun(ops)
    ensures Forest(Run(ops))
  {
    hide Legal, Apply, Forest;
    if ops == [] {
      EmptyIsForest<T>();
    } else {
      var front := ops[..|ops| - 1];
      forall i | 0 <= i < |front| ensures Legal(Run(front[..i]), front[i]) {
        assert front[..i] == ops[..i];
      }
      RunKeepsForest(front);
      StepKeepsForest(Run(front), ops[|front|]);
    }
  }

  lemma EmptyIsForest<T>()
    ensures Forest<T>(Graph(map[], map[]))
  {
  }

  // --- The root ----------------------------------------------------------------------------------

  /** The number of objects on the path to the root. */
  ghost function Height<T>(p: map<T, Option<T>>, o: T): (h: nat)
    requires Rooted(p, o)
    ensures Up(p, o, h).None? && forall k: nat :: k < h ==> Up(p, o, k).Some?
  {
    var k: nat :| Up(p, o, k).None?;
    Least(p, o, k)
  }

  ghost function Least<T>(p: map<T, Option<T>>, o: T, k: nat): (h: nat)
    requires Up(p, o, k).None?
    ensures Up(p, o, h).None? && forall j: nat :: j < h ==> Up(p, o, j).Some?
  {
    if j: nat :| j < k && Up(p, o, j).None? then Least(p, o, j) else k
  }

  lemma HeightStep<T>(p: map<T, Option<T>>, o: T)
    requires Rooted(p, o) && o in p && p[o].Some?
    ensures Rooted(p, p[o].value) && Height(p, p[o].value) < Height(p, o)
  {
    var h := Height(p, o);
    assert Up(p, o, h) == Up(p, p[o].value, h - 1);
  }

  ghost function RootOf<T>(p: map<T, Option<T>>, o: T): T
    requires Rooted(p, o)
    decreases Height(p, o)
  {
    if o in p && p[o].Some? then HeightStep(p, o); RootOf(p, p[o].value) else o
  }

  ghost predicate IsTop<T>(p: map<T, Option<T>>, a: T) {
    a in p ==> p[a].None?
  }

  /** The root is the one object above, or the object itself, that has no parent. */
  lemma {:induction false} RootIsUnique<T>(p: map<T, Option<T>>, o: T, a: T)
    requires Rooted(p, o)
    ensures Above(p, a, o) && IsTop(p, a) <==> a == RootOf(p, o)
    decreases Height(p, o)
  {
    hide Height;
    assert Up(p, o, 0) == Some(o);
    if o in p && p[o].Some? {
      var n := p[o].value;
      HeightStep(p, o);
      RootIsUnique(p, n, a);
      if k: nat :| Up(p, o, k) == Some(a) && k > 0 {
        assert Up(p, n, k - 1) == Some(a);
      }
      if l: nat :| Up(p, n, l) == Some(a) {
        assert Up(p, o, l + 1) == Some(a);
      }
    } else if k: nat :| Up(p, o, k) == Some(a) {
      assert k == 0;
    }
  }
}
