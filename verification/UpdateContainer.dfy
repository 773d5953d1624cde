/** The queue of pending updates as a sequence: one update per URI, oldest first. */
module UpdateQueue {
  import opened Bytes
  import opened Values

  type Uri = seq<byte>

  datatype Update = Update(uri: Uri, value: Value, time: int)

  predicate Distinct(q: seq<Update>) {
    forall i, j :: 0 <= i < j < |q| ==> q[i].uri != q[j].uri
  }

  predicate Holds(q: seq<Update>, uri: Uri) {
    exists i :: 0 <= i < |q| && q[i].uri == uri
  }

  /** Replace the update of the same URI where it stands, or append a new one. */
  function Push(q: seq<Update>, u: Update): seq<Update> {
    if q == [] then [u]
    else if q[0].uri == u.uri then [u] + q[1..]
    else [q[0]] + Push(q[1..], u)
  }

  lemma {:induction false} PushReplaces(q: seq<Update>, u: Update, i: nat)
    requires i < |q| && q[i].uri == u.uri && Distinct(q)
    ensures Push(q, u) == q[i := u]
  {
    if i > 0 {
      assert q[0].uri != q[i].uri;
      PushReplaces(q[1..], u, i - 1);
      assert q[i := u] == [q[0]] + q[1..][i - 1 := u];
    }
  }

  lemma {:induction false} PushAppends(q: seq<Update>, u: Update)
    requires !Holds(q, u.uri)
    ensures Push(q, u) == q + [u]
  {
    if q != [] {
      assert q[0].uri != u.uri;
      assert forall i :: 0 <= i < |q[1..]| ==> q[1..][i] == q[i + 1];
      PushAppends(q[1..], u);
    }
  }

  lemma PushKeepsDistinct(q: seq<Update>, u: Update)
    requires Distinct(q)
    ensures Distinct(Push(q, u)) && Holds(Push(q, u), u.uri)
  {
    if i :| 0 <= i < |q| && q[i].uri == u.uri {
      PushReplaces(q, u, i);
      assert Push(q, u)[i].uri == u.uri;
    } else {
      PushAppends(q, u);
      assert Push(q, u)[|q|].uri == u.uri;
    }
  }

  // --- Whole histories of pushes and pops --------------------------------------------------------

  datatype Op = Add(u: Update) | Remove

  /** The queue after a history; removing from an empty queue throws and changes nothing. */
  function After(ops: seq<Op>): (q: seq<Update>)
    ensures Distinct(q)
  {
    if ops == [] then []
    else
      var q, op := After(ops[..|ops| - 1]), ops[|ops| - 1];
      match op
      case Add(u) => PushKeepsDistinct(q, u); Push(q, u)
      case Remove => if q == [] then [] else q[1..]
  }

  predicate AddsTo(op: Op, uri: Uri) {
    op.Add? && op.u.uri == uri
  }

  /** `k` is the last push of the URI in the history. */
  predicate LatestPush(ops: seq<Op>, uri: Uri, k: nat) {
    k < |ops| && AddsTo(ops[k], uri) && forall l :: k < l < |ops| ==> !AddsTo(ops[l], uri)
  }

  /** `k` is the push that made the URI enter the queue, where it has stayed since. */
  ghost predicate Arrival(ops: seq<Op>, uri: Uri, k: nat) {
    && k < |ops| && AddsTo(ops[k], uri) && !Holds(After(ops[..k]), uri)
    && forall l :: k < l <= |ops| ==> Holds(After(ops[..l]), uri)
  }

  lemma AfterNothing()
    ensures After([]) == []
  {
  }

  lemma AfterStep(ops: seq<Op>, op: Op)
    ensures After(ops + [op]) == (match op
                                  case Add(u) => Push(After(ops), u)
                                  case Remove => if After(ops) == [] then [] else After(ops)[1..])
  {
    assert (ops + [op])[..|ops|] == ops;
  }

  lemma PrefixOfSnoc<T>(s: seq<T>, x: T, l: nat)
    requires l <= |s|
    ensures (s + [x])[..l] == s[..l]
  {
  }

  lemma LatestPushSnoc(ops: seq<Op>, op: Op, uri: Uri, k: nat)
    requires LatestPush(ops, uri, k) && !AddsTo(op, uri)
    ensures LatestPush(ops + [op], uri, k)
  {
  }

  lemma ArrivalSnoc(ops: seq<Op>, op: Op, uri: Uri, k: nat)
    requires Arrival(ops, uri, k) && Holds(After(ops + [op]), uri)
    ensures Arrival(ops + [op], uri, k)
  {
    hide After;
    var more := ops + [op];
    PrefixOfSnoc(ops, op, k);
    forall l | k < l <= |more| ensures Holds(After(more[..l]), uri) {
      if l <= |ops| {
        PrefixOfSnoc(ops, op, l);
      } else {
        assert more[..l] == more;
      }
    }
  }

  lemma ArrivalNow(ops: seq<Op>, u: Update)
    requires !Holds(After(ops), u.uri)
    ensures Arrival(ops + [Add(u)], u.uri, |ops|)
  {
    hide After, Holds, Distinct, Push;
    var more := ops + [Add(u)];
    PrefixOfSnoc(ops, Add(u), |ops|);
    assert ops[..|ops|] == ops;
    AfterStep(ops, Add(u));
    PushKeepsDistinct(After(ops), u);
    forall l | |ops| < l <= |more| ensures Holds(After(more[..l]), u.uri) {
      assert more[..l] == more;
    }
  }

  /** Every queued update carries the value and the time of the latest push of its URI. */
  lemma {:induction false} QueuedIsLatest(ops: seq<Op>, i: nat)
    requires i < |After(ops)|
    ensures exists k: nat :: LatestPush(ops, After(ops)[i].uri, k) && ops[k].u == After(ops)[i]
  {
    hide After;
    if ops == [] {
      AfterNothing();
      assert false;
    } else {
      var before, op := ops[..|ops| - 1], ops[|ops| - 1];
      assert ops == before + [op];
      var q := After(before);
      AfterStep(before, op);
      var x := After(ops)[i];
      if op.Add? && x.uri == op.u.uri {
        PushedIsFound(q, op.u, i);
        assert LatestPush(ops, x.uri, |before|);
      } else {
        var j := Origin(q, op, i);
        QueuedIsLatest(before, j);
        var k: nat :| LatestPush(before, q[j].uri, k) && before[k].u == q[j];
        LatestPushSnoc(before, op, x.uri, k);
        assert ops[k].u == x;
      }
    }
  }

  /** The queue is ordered by the pushes that made its URIs enter it: first come, first served. */
  lemma {:induction false} QueuedByArrival(ops: seq<Op>, i: nat, j: nat) returns (k: nat, l: nat)
    requires i < j < |After(ops)|
    ensures k < l && Arrival(ops, After(ops)[i].uri, k) && Arrival(ops, After(ops)[j].uri, l)
  {
    hide After, Arrival, Distinct, Push;
    if ops == [] {
      AfterNothing();
      assert false;
    } else {
      var before, op := ops[..|ops| - 1], ops[|ops| - 1];
      assert ops == before + [op];
      var q, r := After(before), After(ops);
      AfterStep(before, op);
      assert Holds(r, r[i].uri) && Holds(r, r[j].uri);
      if op.Add? && !Holds(q, op.u.uri) {
        PushAppends(q, op.u);
        if j < |q| {
          k, l := QueuedByArrival(before, i, j);
          ArrivalSnoc(before, op, q[j].uri, l);
        } else {
          k := QueuedArrived(before, i);
          l := |before|;
          ArrivalBounds(before, q[i].uri, k);
          ArrivalNow(before, op.u);
        }
        ArrivalSnoc(before, op, q[i].uri, k);
      } else {
        var s := if op.Add? then 0 else 1;
        KeepsOrder(q, op);
        k, l := QueuedByArrival(before, i + s, j + s);
        ArrivalSnoc(before, op, r[i].uri, k);
        ArrivalSnoc(before, op, r[j].uri, l);
      }
    }
  }

  lemma ArrivalBounds(ops: seq<Op>, uri: Uri, k: nat)
    requires Arrival(ops, uri, k)
    ensures k < |ops|
  {
  }

  lemma {:induction false} QueuedArrived(ops: seq<Op>, i: nat) returns (k: nat)
    requires i < |After(ops)|
    ensures Arrival(ops, After(ops)[i].uri, k)
  {
    hide After;
    if ops == [] {
      AfterNothing();
      assert false;
    } else {
      var before, op := ops[..|ops| - 1], ops[|ops| - 1];
      assert ops == before + [op];
      var q, r := After(before), After(ops);
      AfterStep(before, op);
      assert Holds(r, r[i].uri);
      if op.Add? && !Holds(q, op.u.uri) {
        PushAppends(q, op.u);
        if i < |q| {
          k := QueuedArrived(before, i);
          ArrivalSnoc(before, op, q[i].uri, k);
        } else {
          k := |before|;
          ArrivalNow(before, op.u);
        }
      } else {
        KeepsOrder(q, op);
        k := QueuedArrived(before, if op.Add? then i else i + 1);
        ArrivalSnoc(before, op, r[i].uri, k);
      }
    }
  }

  function Applied(q: seq<Update>, op: Op): seq<Update> {
    match op
    case Add(u) => Push(q, u)
    case Remove => if q == [] then [] else q[1..]
  }

  /** Unless a new URI arrives, the URIs of the queue stay as they were, but for a removed head. */
  lemma KeepsOrder(q: seq<Update>, op: Op)
    requires Distinct(q) && (op.Add? ==> Holds(q, op.u.uri))
    ensures op.Add? ==> |Applied(q, op)| == |q| && forall i :: 0 <= i < |q| ==> Applied(q, op)[i].uri == q[i].uri
    ensures op.Remove? && q != [] ==> Applied(q, op) == q[1..]
  {
    if op.Add? {
      var i :| 0 <= i < |q| && q[i].uri == op.u.uri;
      PushReplaces(q, op.u, i);
    }
  }

  lemma PushedIsFound(q: seq<Update>, u: Update, i: nat)
    requires Distinct(q) && i < |Push(q, u)| && Push(q, u)[i].uri == u.uri
    ensures Push(q, u)[i] == u
  {
    hide Push;
    PushKeepsDistinct(q, u);
    if k :| 0 <= k < |q| && q[k].uri == u.uri {
      PushReplaces(q, u, k);
    } else {
      PushAppends(q, u);
    }
  }

  /** Where an update that the operation did not write was before. */
  lemma Origin(q: seq<Update>, op: Op, i: nat) returns (j: nat)
    requires Distinct(q) && i < |Applied(q, op)|
    requires op.Add? ==> Applied(q, op)[i].uri != op.u.uri
    ensures j < |q| && q[j] == Applied(q, op)[i]
  {
    if op.Remove? {
      j := i + 1;
    } else if k :| 0 <= k < |q| && q[k].uri == op.u.uri {
      PushReplaces(q, op.u, k);
      j := i;
    } else {
      PushAppends(q, op.u);
      j := i;
    }
  }
}

/** The container itself: a map whose entries are also threaded into a list by `next`. */
module UpdateContainer {
  import opened Bytes
  import opened Values
  import opened UpdateQueue

  class Entry {
    const key: Uri
    var value: Value
    var time: int
    var next: Entry?

    constructor (key: Uri, value: Value)
      ensures this.key == key
    {
      this.key, this.value := key, value;
    }
  }

  /** The map holds exactly the entries of the list, each under its own key. */
  ghost predicate Indexes(updates: map<Uri, Entry>, order: seq<Entry>) {
    && (forall i :: 0 <= i < |order| ==> order[i].key in updates && updates[order[i].key] == order[i])
    && (forall k :: k in updates ==> updates[k] in order && updates[k].key == k)
    && (forall i, j :: 0 <= i < j < |order| ==> order[i] != order[j])
  }

  ghost function Nexts(order: seq<Entry>): (n: seq<Entry?>)
    reads order
    ensures |n| == |order|
    ensures forall i :: 0 <= i < |n| ==> n[i] == order[i].next
  {
    seq(|order|, i requires 0 <= i < |order| reads order => order[i].next)
  }

  /** Following `next` from `front` visits the entries in order and ends at `back`. */
  ghost predicate Linked(front: Entry?, back: Entry?, order: seq<Entry>, nexts: seq<Entry?>) {
    && |nexts| == |order|
    && (forall i :: 0 <= i < |nexts| - 1 ==> nexts[i] == order[i + 1])
    && (if |order| == 0 then front == back == null
        else front == order[0] && back == order[|order| - 1] && nexts[|order| - 1] == null)
  }

  ghost function Listed(order: seq<Entry>): (q: seq<Update>)
    reads order
    ensures |q| == |order|
    ensures forall i :: 0 <= i < |q| ==> q[i] == Update(order[i].key, order[i].value, order[i].time)
  {
    seq(|order|, i requires 0 <= i < |order| reads order => Update(order[i].key, order[i].value, order[i].time))
  }

  lemma IndexAppends(updates: map<Uri, Entry>, order: seq<Entry>, e: Entry)
    requires Indexes(updates, order) && e.key !in updates
    ensures Indexes(updates[e.key := e], order + [e])
  {
    var more := order + [e];
    forall k | k in updates ensures updates[k] in more {
      var i :| 0 <= i < |order| && order[i] == updates[k];
      assert more[i] == updates[k];
    }
    assert more[|order|] == e;
  }

  lemma IndexDrops(updates: map<Uri, Entry>, order: seq<Entry>)
    requires Indexes(updates, order) && order != []
    ensures Indexes(updates - {order[0].key}, order[1..])
  {
    var rest := order[1..];
    forall i | 0 <= i < |rest| ensures rest[i].key != order[0].key {
      assert rest[i] == order[i + 1];
    }
    forall k | k in updates && k != order[0].key ensures updates[k] in rest {
      var i :| 0 <= i < |order| && order[i] == updates[k];
      assert rest[i - 1] == updates[k];
    }
  }

  lemma LinkEnds(front: Entry?, back: Entry?, order: seq<Entry>, nexts: seq<Entry?>)
    requires Linked(front, back, order, nexts)
    ensures front == (if |order| == 0 then null else order[0])
    ensures back == (if |order| == 0 then null else order[|order| - 1])
  {
  }

  lemma LinkDrops(front: Entry?, back: Entry?, order: seq<Entry>, nexts: seq<Entry?>)
    requires Linked(front, back, order, nexts) && |order| > 0
    ensures Linked(nexts[0], if nexts[0] == null then null else back, order[1..], nexts[1..])
  {
  }

  lemma LinkAppends(front: Entry?, back: Entry?, order: seq<Entry>, nexts: seq<Entry?>, e: Entry)
    requires Linked(front, back, order, nexts)
    ensures var nexts' := if |order| == 0 then nexts else nexts[|order| - 1 := e];
            Linked(if front == null then e else front, e, order + [e], nexts' + [null])
  {
  }

  lemma ListedDistinct(updates: map<Uri, Entry>, order: seq<Entry>)
    requires Indexes(updates, order)
    ensures Distinct(Listed(order))
    ensures forall uri :: uri in updates <==> Holds(Listed(order), uri)
  {
    forall i, j | 0 <= i < j < |order| ensures order[i].key != order[j].key {
      assert updates[order[i].key] == order[i] && updates[order[j].key] == order[j];
    }
    forall uri | uri in updates ensures Holds(Listed(order), uri) {
      var i :| 0 <= i < |order| && order[i] == updates[uri];
      assert Listed(order)[i].uri == uri;
    }
  }

  class UpdateContainer {
    var updates: map<Uri, Entry>
    var front: Entry?
    var back: Entry?
    ghost var order: seq<Entry>

    ghost predicate Valid()
      reads this, order
    {
      Indexes(updates, order) && Linked(front, back, order, Nexts(order))
    }

    ghost function Contents(): seq<Update>
      reads this, order
    {
      Listed(order)
    }

    constructor ()
      ensures Valid() && Contents() == [] && order == []
    {
      updates, front, back, order := map[], null, null, [];
    }

    method Push(uri: Uri, value: Value, now: int)
      requires Valid()
      modifies this, order
      ensures Valid() && Contents() == UpdateQueue.Push(old(Contents()), Update(uri, value, now))
      ensures order == old(order) || (back != null && fresh(back) && order == old(order) + [back])
    {
      hide Indexes, Linked, Listed, Nexts, Distinct, Holds, UpdateQueue.Push;
      ListedDistinct(updates, order);
      DistinctEntries(updates, order);
      ghost var q, was, nexts, u := Contents(), order, Nexts(order), Update(uri, value, now);
      var isNew := uri !in updates;
      var current;
      if isNew {
        current := new Entry(uri, value);
        IndexAppends(updates, order, current);
        updates := updates[uri := current];
      } else {
        current := updates[uri];
        IndexedAt(updates, order, uri);
      }
      current.value := value;
      current.time := now;
      if isNew {
        assert Nexts(order) == nexts && Contents() == q;
        Thread(current);
        PushAppends(q, u);
      } else {
        ghost var i :| 0 <= i < |was| && was[i] == current;
        PushReplaces(q, u, i);
        assert Nexts(order) == nexts;
        assert Contents() == q[i := u];
      }
    }

    /** The second half of `push` for a new key. */
    method Thread(current: Entry)
      requires Linked(front, back, order, Nexts(order)) && current !in order
      requires forall i, j :: 0 <= i < j < |order| ==> order[i] != order[j]
      modifies this`front, this`back, this`order, current`next, order`next
      ensures Linked(front, back, order, Nexts(order))
      ensures order == old(order) + [current] && back == current
      ensures Contents() == old(Contents()) + [Update(current.key, current.value, current.time)]
    {
      hide Linked, Nexts, Listed;
      ghost var was, nexts := order, Nexts(order);
      LinkEnds(front, back, order, nexts);
      LinkAppends(front, back, order, nexts, current);
      current.next := null;
      if front == null {
        back := current;
        front := current;
      } else {
        back.next := current;
        back := current;
      }
      order := order + [current];
      assert Nexts(order) == (if |was| == 0 then nexts else nexts[|was| - 1 := current]) + [null];
    }

    /** The result is None where `out_of_range` is thrown. */
    method PopFront() returns (r: Option<Update>)
      requires Valid()
      modifies this
      ensures Valid()
      ensures old(Contents()) == [] ==> r == None && Contents() == []
      ensures old(Contents()) != [] ==> r == Some(old(Contents())[0]) && Contents() == old(Contents())[1..]
    {
      hide Indexes, Linked, Listed, Nexts;
      LinkEnds(front, back, order, Nexts(order));
      if front == null {
        return None;
      }
      r := Some(Update(front.key, front.value, front.time));
      IndexDrops(updates, order);
      LinkDrops(front, back, order, Nexts(order));
      ghost var was := order;
      var it := front;
      assert it == was[0];
      front := it.next;
      updates := updates - {it.key};
      order := order[1..];
      if front == null {
        back := null;
      }
      assert Nexts(order) == old(Nexts(order))[1..];
    }

    method Empty() returns (r: bool)
      requires Valid()
      ensures r == (Contents() == [])
    {
      r := updates == map[];
      if order != [] {
        assert order[0].key in updates;
      } else if updates != map[] {
        var k :| k in updates;
      }
    }
  }

  lemma IndexedAt(updates: map<Uri, Entry>, order: seq<Entry>, uri: Uri)
    requires Indexes(updates, order) && uri in updates
    ensures updates[uri] in order && updates[uri].key == uri
  {
  }

  lemma DistinctEntries(updates: map<Uri, Entry>, order: seq<Entry>)
    requires Indexes(updates, order)
    ensures forall i, j :: 0 <= i < j < |order| ==> order[i] != order[j]
  {
  }
}
