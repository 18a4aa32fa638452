/** The mutable JSON tree (tinyjson.h): doubly linked child lists, references, and who frees what.
  *
  * A Shape is what a node and its children look like; it is the abstraction that the specifications
  * talk about.  Allocated nodes are in `live`, allocated strings in `texts`; freeing takes out, so that
  * freeing something twice, or something that was never allocated, would break a precondition.
  */
module JsonTree {
  import J = Json

  const ZERO: J.Number := J.Int(0)

  /** A string on the heap. */
  class Text {
    const s: string

    constructor (s: string)
      ensures this.s == s
    {
      this.s := s;
    }
  }

  class Node {
    var next: Node?
    var prev: Node?
    var child: Node?
    var parent: Node?
    const kind: int
    /** A reference borrows its children. */
    const isRef: bool
    /** valuestring */
    const text: Text?
    /** valuedouble */
    const num: J.Number
    /** string */
    var key: Text?

    constructor (kind: int, isRef: bool, text: Text?, num: J.Number, key: Text?)
      ensures next == prev == child == parent == null
      ensures this.kind == kind && this.isRef == isRef && this.text == text && this.num == num && this.key == key
    {
      next, prev, child, parent := null, null, null, null;
      this.kind, this.isRef, this.text, this.num, this.key := kind, isRef, text, num, key;
    }
  }

  class Heap {
    ghost var live: set<Node>
    ghost var texts: set<Text>

    /** cj_new, with what is stored in the node before anyone sees it. */
    method New(kind: int, isRef: bool, text: Text?, num: J.Number, key: Text?) returns (n: Node)
      modifies this`live
      ensures fresh(n) && live == old(live) + {n} && n !in old(live)
      ensures n.next == n.prev == n.child == n.parent == null
      ensures n.kind == kind && n.isRef == isRef && n.text == text && n.num == num && n.key == key
    {
      n := new Node(kind, isRef, text, num, key);
      live := live + {n};
    }

    /** strdup. */
    method Dup(s: string) returns (t: Text)
      modifies this`texts
      ensures fresh(t) && t.s == s && texts == old(texts) + {t} && t !in old(texts)
    {
      t := new Text(s);
      texts := texts + {t};
    }

    method Free(n: Node)
      requires n in live
      modifies this`live
      ensures live == old(live) - {n}
    {
      live := live - {n};
    }

    /** free, which does nothing on null. */
    method FreeText(t: Text?)
      requires t == null || t in texts
      modifies this`texts
      ensures texts == old(texts) - Single(t)
    {
      if t != null {
        texts := texts - {t};
      }
    }
  }

  function Single(t: Text?): set<Text> { if t == null then {} else {t} }

  datatype Shape = Shape(node: Node, kids: seq<Shape>, key: Text?)

  function First(fs: seq<Shape>): Node? { if fs == [] then null else fs[0].node }

  /** All nodes that can be reached. */
  function All(fs: seq<Shape>): set<Node>
  {
    if fs == [] then {} else {fs[0].node} + All(fs[0].kids) + All(fs[1..])
  }

  /** The nodes that are freed with fs: not the children of references. */
  function Owned(fs: seq<Shape>): (s: set<Node>)
    ensures s <= All(fs)
  {
    if fs == [] then {} else OwnedBy(fs[0]) + Owned(fs[1..])
  }

  function OwnedBy(f: Shape): (s: set<Node>)
    ensures s <= {f.node} + All(f.kids)
  {
    {f.node} + if f.node.isRef then {} else Owned(f.kids)
  }

  /** The strings that are freed with fs: those of references, too. */
  function Texts(fs: seq<Shape>): set<Text> { if fs == [] then {} else TextsBy(fs[0]) + Texts(fs[1..]) }

  function TextsBy(f: Shape): set<Text> {
    Single(f.node.text) + Single(f.key) + if f.node.isRef then {} else Texts(f.kids)
  }

  /** No string is freed twice. */
  ghost predicate TextsApart(fs: seq<Shape>) {
    fs != [] ==> TextsBy(fs[0]) !! Texts(fs[1..]) && ApartIn(fs[0]) && TextsApart(fs[1..])
  }

  ghost predicate ApartIn(f: Shape) {
    && Single(f.node.text) !! Single(f.key)
    && (!f.node.isRef ==> Single(f.node.text) + Single(f.key) !! Texts(f.kids) && TextsApart(f.kids))
  }

  lemma {:induction false} TextsAppend(a: seq<Shape>, b: seq<Shape>)
    ensures Texts(a + b) == Texts(a) + Texts(b)
    ensures TextsApart(a + b) <==> TextsApart(a) && TextsApart(b) && Texts(a) !! Texts(b)
  {
    if a == [] {
      assert a + b == b;
    } else {
      assert (a + b)[1..] == a[1..] + b;
      TextsAppend(a[1..], b);
    }
  }

  lemma OneText(f: Shape)
    ensures Texts([f]) == TextsBy(f) && (TextsApart([f]) <==> ApartIn(f))
  {
  }

  /** The strings in the order in which they are freed. */
  function Frees(fs: seq<Shape>): seq<Text> {
    if fs == [] then []
    else
      (if fs[0].node.isRef then [] else Frees(fs[0].kids)) + Listed(fs[0].node.text) + Listed(fs[0].key) +
        Frees(fs[1..])
  }

  function Listed(t: Text?): seq<Text> { if t == null then [] else [t] }

  ghost predicate Distinct(s: seq<Text>) { forall i, j | 0 <= i < j < |s| :: s[i] != s[j] }

  function TextSet(s: seq<Text>): set<Text> { set t | t in s }

  lemma DistinctAppend(a: seq<Text>, b: seq<Text>)
    ensures TextSet(a + b) == TextSet(a) + TextSet(b)
    ensures Distinct(a + b) <==> Distinct(a) && Distinct(b) && TextSet(a) !! TextSet(b)
  {
    var c := a + b;
    forall i | 0 <= i < |b| ensures c[|a| + i] == b[i] && b[i] in TextSet(b) {
    }
    forall i | 0 <= i < |a| ensures c[i] == a[i] && a[i] in TextSet(a) {
    }
    if Distinct(c) {
      forall i, j | 0 <= i < j < |b| ensures b[i] != b[j] {
        assert c[|a| + i] == b[i] && c[|a| + j] == b[j];
      }
      forall i, j | 0 <= i < |a| && 0 <= j < |b| ensures a[i] != b[j] {
        assert c[i] == a[i] && c[|a| + j] == b[j];
      }
    } else {
      var i, j :| 0 <= i < j < |c| && c[i] == c[j];
      if i < |a| <= j {
        assert c[j] == b[j - |a|];
      }
    }
  }

  lemma DistinctParts(kids: seq<Text>, own: seq<Text>, rest: seq<Text>)
    ensures TextSet(kids + own + rest) == TextSet(kids) + TextSet(own) + TextSet(rest)
    ensures Distinct(kids + own + rest) <==>
      Distinct(kids) && Distinct(own) && Distinct(rest) && TextSet(kids) !! TextSet(own) &&
        TextSet(kids) + TextSet(own) !! TextSet(rest)
  {
    DistinctAppend(kids + own, rest);
    DistinctAppend(kids, own);
  }

  lemma OwnOnce(text: Text?, key: Text?)
    ensures TextSet(Listed(text) + Listed(key)) == Single(text) + Single(key)
    ensures Distinct(Listed(text) + Listed(key)) <==> Single(text) !! Single(key)
  {
    var s := Listed(text) + Listed(key);
    if text != null && key != null {
      assert s == [text, key] && (Distinct(s) ==> s[0] != s[1]);
    } else {
      assert |s| <= 1 && Distinct(s);
    }
  }

  lemma NoneOnce()
    ensures TextSet([]) == {} && Distinct([])
  {
  }

  /** The strings that are freed are those of Texts, and each of them once if and only if they are apart. */
  lemma {:induction false} FreesOnce(fs: seq<Shape>)
    ensures TextSet(Frees(fs)) == Texts(fs) && (Distinct(Frees(fs)) <==> TextsApart(fs))
  {
    hide *;
    if fs != [] {
      if !fs[0].node.isRef {
        FreesOnce(fs[0].kids);
      }
      FreesOnce(fs[1..]);
    }
    FreesStep(fs);
  }

  lemma FreesStep(fs: seq<Shape>)
    requires fs != [] ==> TextSet(Frees(fs[1..])) == Texts(fs[1..])
    requires fs != [] ==> (Distinct(Frees(fs[1..])) <==> TextsApart(fs[1..]))
    requires fs != [] && !fs[0].node.isRef ==>
      TextSet(Frees(fs[0].kids)) == Texts(fs[0].kids) && (Distinct(Frees(fs[0].kids)) <==> TextsApart(fs[0].kids))
    ensures TextSet(Frees(fs)) == Texts(fs) && (Distinct(Frees(fs)) <==> TextsApart(fs))
  {
    hide *;
    NoneOnce();
    TextsIs(fs);
    FreesIs(fs);
    if fs != [] {
      var f := fs[0];
      var kids, own, rest := KidFrees(f), Listed(f.node.text) + Listed(f.key), Frees(fs[1..]);
      KidsOnce(f);
      DistinctParts(kids, own, rest);
      OwnOnce(f.node.text, f.key);
      ApartIs(f);
      OwnIs(f);
      TextsReordered(TextSet(kids), TextSet(own), TextSet(rest));
    }
  }

  lemma OwnIs(f: Shape)
    ensures OwnTexts(f) == Single(f.node.text) + Single(f.key)
  {
  }

  lemma TextsReordered(k: set<Text>, o: set<Text>, r: set<Text>)
    ensures o + k + r == k + o + r && (o + k !! r <==> k + o !! r) && (o !! k <==> k !! o)
  {
    assert o + k == k + o;
  }

  /** The strings of the children that are freed with a node. */
  function KidTexts(f: Shape): set<Text> { if f.node.isRef then {} else Texts(f.kids) }

  function OwnTexts(f: Shape): set<Text> { Single(f.node.text) + Single(f.key) }

  lemma TextsIs(fs: seq<Shape>)
    ensures fs == [] ==> Texts(fs) == {} && TextsApart(fs)
    ensures fs != [] ==> Texts(fs) == OwnTexts(fs[0]) + KidTexts(fs[0]) + Texts(fs[1..])
    ensures fs != [] ==>
      (TextsApart(fs) <==>
        OwnTexts(fs[0]) + KidTexts(fs[0]) !! Texts(fs[1..]) && ApartIn(fs[0]) && TextsApart(fs[1..]))
  {
    hide Single, ApartIn;
  }

  lemma ApartIs(f: Shape)
    ensures ApartIn(f) <==>
      Single(f.node.text) !! Single(f.key) && OwnTexts(f) !! KidTexts(f) && (f.node.isRef || TextsApart(f.kids))
  {
    hide Single, TextsApart;
  }

  lemma FreesIs(fs: seq<Shape>)
    ensures fs == [] ==> Frees(fs) == []
    ensures fs != [] ==>
      Frees(fs) == KidFrees(fs[0]) + (Listed(fs[0].node.text) + Listed(fs[0].key)) + Frees(fs[1..])
  {
    hide Listed;
    if fs != [] {
      var kids, t, k := KidFrees(fs[0]), Listed(fs[0].node.text), Listed(fs[0].key);
      assert kids + t + k + Frees(fs[1..]) == kids + (t + k) + Frees(fs[1..]);
    }
  }

  function KidFrees(f: Shape): seq<Text> { if f.node.isRef then [] else Frees(f.kids) }

  lemma KidsOnce(f: Shape)
    requires !f.node.isRef ==> TextSet(Frees(f.kids)) == Texts(f.kids)
    requires !f.node.isRef ==> (Distinct(Frees(f.kids)) <==> TextsApart(f.kids))
    ensures TextSet(KidFrees(f)) == KidTexts(f) && (Distinct(KidFrees(f)) <==> f.node.isRef || TextsApart(f.kids))
  {
    NoneOnce();
    hide TextSet, Distinct, Texts, TextsApart, Frees;
  }

  /** A reference shares the string of the node it refers to: deleting both frees nothing twice if and only
    * if there is no such string. */
  lemma ReferenceTwice(ref: Shape, it: Shape)
    requires ref.node.isRef && ref.node.text == it.node.text && TextsApart([it])
    requires Single(ref.key) !! Texts([it])
    ensures Distinct(Frees([ref]) + Frees([it])) <==> it.node.text == null
  {
    FreesOnce([ref]);
    FreesOnce([it]);
    DistinctParts(Frees([ref]), [], Frees([it]));
    assert Frees([ref]) + [] == Frees([ref]);
    NoneOnce();
    OneText(ref);
    OneText(it);
  }

  /** No node occurs twice. */
  ghost predicate Separate(fs: seq<Shape>) {
    fs != [] ==>
      && fs[0].node !in All(fs[0].kids) && fs[0].node !in All(fs[1..]) && All(fs[0].kids) !! All(fs[1..])
      && Separate(fs[0].kids) && Separate(fs[1..])
  }

  /** The nodes of fs form a list, from behind `before` to ahead of `after`; so do their children. */
  ghost predicate Segment(fs: seq<Shape>, before: Node?, after: Node?)
    reads All(fs)
  {
    fs != [] ==>
      && fs[0].node.prev == before && fs[0].node.next == (if |fs| == 1 then after else First(fs[1..]))
      && IsNode(fs[0]) && Segment(fs[1..], fs[0].node, after)
  }

  /** The children of a node. */
  ghost predicate IsNode(f: Shape)
    reads f.node, All(f.kids)
  {
    f.node.child == First(f.kids) && f.node.key == f.key && Segment(f.kids, null, null)
  }

  lemma {:induction false} AllAppend(a: seq<Shape>, b: seq<Shape>)
    ensures All(a + b) == All(a) + All(b) && Owned(a + b) == Owned(a) + Owned(b)
  {
    if a == [] {
      assert a + b == b;
    } else {
      assert (a + b)[1..] == a[1..] + b;
      AllAppend(a[1..], b);
    }
  }

  lemma {:induction false} SeparateAppend(a: seq<Shape>, b: seq<Shape>)
    ensures Separate(a + b) <==> Separate(a) && Separate(b) && All(a) !! All(b)
  {
    if a == [] {
      assert a + b == b;
    } else {
      assert (a + b)[1..] == a[1..] + b;
      SeparateAppend(a[1..], b);
      AllAppend(a[1..], b);
    }
  }

  /** The last node, as a set. */
  function Lasts(fs: seq<Shape>): set<Node> { if fs == [] then {} else {fs[|fs| - 1].node} }

  function LastNode(fs: seq<Shape>): Node? { if fs == [] then null else fs[|fs| - 1].node }

  lemma {:induction false} SegmentAppend(a: seq<Shape>, b: seq<Shape>, before: Node?, after: Node?)
    ensures Segment(a + b, before, after) <==>
      (Segment(a, before, if b == [] then after else First(b)) &&
        Segment(b, if a == [] then before else LastNode(a), after))
  {
    if a == [] {
      assert a + b == b;
    } else {
      assert (a + b)[1..] == a[1..] + b;
      SegmentAppend(a[1..], b, a[0].node, after);
    }
  }

  lemma {:induction false} SegmentAt(fs: seq<Shape>, before: Node?, after: Node?, i: nat)
    requires Segment(fs, before, after) && i < |fs|
    ensures fs[i].node in All(fs) && IsNode(fs[i])
    ensures fs[i].node.next == (if i + 1 < |fs| then fs[i + 1].node else after)
    ensures fs[i].node.prev == (if i > 0 then fs[i - 1].node else before)
    decreases i
  {
    if i > 0 {
      SegmentAt(fs[1..], fs[0].node, after, i - 1);
    }
  }

  // -------------------------------------------------------------------------------- accessors

  method GetArrayItem(arr: Node, index: int, ghost kids: seq<Shape>) returns (c: Node?)
    requires arr.child == First(kids) && Segment(kids, null, null)
    ensures c == if index >= |kids| then null else if index >= 0 then kids[index].node else First(kids)
  {
    c := arr.child;
    var left := index;
    ghost var i := 0;
    while c != null && left > 0
      invariant Segment(kids, null, null) && i <= |kids| && c == (if i < |kids| then kids[i].node else null)
      invariant if index <= 0 then i == 0 && left == index else left == index - i && left >= 0
      decreases |kids| - i
    {
      SegmentAt(kids, null, null, i);
      c := c.next;
      left := left - 1;
      i := i + 1;
    }
  }

  // ------------------------------------------------------------------------------------ append

  /** The facts about sharing that appending relies on. */
  lemma AppendApart(kids: seq<Shape>, it: Shape)
    requires Separate(kids + [it])
    ensures it.node !in All(kids) && it.node !in All(it.kids) && All(kids) !! All(it.kids)
    ensures All([it]) == {it.node} + All(it.kids)
    ensures kids != [] ==>
      var front, k := kids[..|kids| - 1], kids[|kids| - 1];
      && k.node !in All(front) && k.node !in All(k.kids) && k.node !in All(it.kids) && it.node !in All(front)
      && it.node !in All(k.kids)
      && kids == front + [k] && k.node in All(kids)
  {
    SeparateAppend(kids, [it]);
    AllAppend(kids, [it]);
    if kids != [] {
      var front, end := kids[..|kids| - 1], [kids[|kids| - 1]];
      assert kids == front + end;
      AllAppend(front, end);
      SeparateAppend(front, end);
    }
  }

  lemma SplitLast(kids: seq<Shape>)
    requires kids != [] && Segment(kids, null, null)
    ensures var front, k := kids[..|kids| - 1], kids[|kids| - 1];
      Segment(front, null, k.node) && IsNode(k) && k.node.prev == LastNode(front) && kids == front + [k]
  {
    hide Segment;
    var front, k := kids[..|kids| - 1], kids[|kids| - 1];
    assert kids == front + [k];
    SegmentAppend(front, [k], null, null);
    Lone(k, LastNode(front), null);
  }

  lemma Lone(k: Shape, before: Node?, after: Node?)
    ensures Segment([k], before, after) <==> k.node.prev == before && k.node.next == after && IsNode(k)
  {
  }

  lemma Glue(front: seq<Shape>, k: Shape, it: Shape, before: Node?)
    requires Segment(front, before, k.node) && IsNode(k) && IsNode(it)
    requires k.node.prev == (if front == [] then before else LastNode(front)) && k.node.next == it.node
    requires it.node.prev == k.node && it.node.next == null
    ensures Segment(front + [k] + [it], before, null)
  {
    hide Segment;
    Lone(it, k.node, null);
    Lone(k, k.node.prev, it.node);
    SegmentAppend(front, [k], before, it.node);
    SegmentAppend(front + [k], [it], before, null);
  }

  /** cj_append_child: the child list gets one more element at its end. */
  method AppendChild(parent: Node, item: Node, ghost kids: seq<Shape>, ghost it: Shape)
    requires IsNode(Shape(parent, kids, parent.key)) && it.node == item && IsNode(it)
    requires Separate(kids + [it]) && parent !in All(kids + [it])
    modifies parent`child, item`parent, item`prev, item`next, Lasts(kids)`next
    ensures IsNode(Shape(parent, kids + [it], parent.key)) && item.parent == parent
  {
    AppendApart(kids, it);
    AllAppend(kids, [it]);
    hide Separate, All, Owned, Segment;
    SetParent(parent, item, kids, it);
    if parent.child == null {
      AppendFirst(parent, item, it);
      assert kids + [it] == [it];
    } else {
      AppendLater(parent, item, kids, it);
    }
  }

  method SetParent(parent: Node, item: Node, ghost kids: seq<Shape>, ghost it: Shape)
    requires it.node == item && IsNode(it) && Segment(kids, null, null) && item !in All(kids) && item !in All(it.kids)
    modifies item`parent, item`next
    ensures IsNode(it) && Segment(kids, null, null) && item.parent == parent && item.next == null
  {
    AllAllocated(kids);
    AllAllocated(it.kids);
    hide All, Segment;
    item.parent := parent;
    item.next := null;
  }

  method AppendFirst(parent: Node, item: Node, ghost it: Shape)
    requires it.node == item && IsNode(it) && item.next == null && item != parent
    requires parent !in All(it.kids) && item !in All(it.kids)
    modifies parent`child, item`prev
    ensures Segment([it], null, null) && parent.child == item
  {
    AllAllocated(it.kids);
    hide All, Segment;
    item.prev := null;
    parent.child := item;
    Lone(it, null, null);
  }

  method AppendLater(parent: Node, item: Node, ghost kids: seq<Shape>, ghost it: Shape)
    requires parent.child == First(kids) && kids != [] && it.node == item && IsNode(it) && item.next == null
    requires Segment(kids, null, null) && Separate(kids + [it])
    modifies item`prev, Lasts(kids)`next
    ensures Segment(kids + [it], null, null)
  {
    AppendApart(kids, it);
    hide Separate, All, Segment;
    ghost var front, k := kids[..|kids| - 1], kids[|kids| - 1];
    AllAllocated(kids);
    AllAllocated(it.kids);
    var last := FindLast(parent, kids);
    SplitLast(kids);
    LinkAfter(last, item, front, k, it);
    assert front + [k] + [it] == kids + [it];
  }

  /** The loop to the last child. */
  method FindLast(parent: Node, ghost kids: seq<Shape>) returns (last: Node)
    requires parent.child != null && parent.child == First(kids) && Segment(kids, null, null)
    ensures kids != [] && last == kids[|kids| - 1].node
  {
    hide Segment;
    last := parent.child;
    ghost var i := 0;
    SegmentAt(kids, null, null, 0);
    while last.next != null
      invariant Segment(kids, null, null)
      invariant i < |kids| && last == kids[i].node && last.next == (if i + 1 < |kids| then kids[i + 1].node else null)
      decreases |kids| - i
    {
      i := i + 1;
      last := last.next;
      SegmentAt(kids, null, null, i);
    }
  }

  method LinkAfter(last: Node, item: Node, ghost front: seq<Shape>, ghost k: Shape, ghost it: Shape)
    requires last == k.node && item == it.node && last != item
    requires Segment(front, null, last) && IsNode(k) && IsNode(it) && item.next == null
    requires last.prev == LastNode(front)
    requires last !in All(front) && item !in All(front)
    requires last !in All(k.kids) && item !in All(k.kids) && last !in All(it.kids) && item !in All(it.kids)
    modifies last`next, item`prev
    ensures Segment(front + [k] + [it], null, null)
  {
    last.next := item;
    item.prev := last;
    Glue(front, k, it, null);
  }

  lemma {:induction false} AllAllocated(fs: seq<Shape>)
    ensures forall n | n in All(fs) :: allocated(n)
  {
    if fs != [] {
      AllAllocated(fs[0].kids);
      AllAllocated(fs[1..]);
    }
  }

  // ------------------------------------------------------------------------------------ delete

  /** cJSON_Delete: frees a list, and the children of its nodes unless they are borrowed.  Every owned
    * node is freed once, and no node is written to. */
  method Delete(item: Node?, heap: Heap, ghost fs: seq<Shape>, ghost before: Node?)
    requires item == First(fs) && Segment(fs, before, null) && Separate(fs) && Owned(fs) <= heap.live
    requires TextsApart(fs) && Texts(fs) <= heap.texts
    modifies heap
    ensures heap.live == old(heap.live) - Owned(fs) && heap.texts == old(heap.texts) - Texts(fs)
    decreases fs
  {
    hide Segment, Separate, All, Owned, OwnedBy, IsNode, Texts, TextsBy, TextsApart, ApartIn;
    var c := item;
    ghost var i := 0;
    assert fs[..0] == [];
    NothingOwned();
    while c != null
      invariant i <= |fs| && c == (if i < |fs| then fs[i].node else null)
      invariant Segment(fs, before, null)
      invariant heap.live == old(heap.live) - Owned(fs[..i]) && heap.texts == old(heap.texts) - Texts(fs[..i])
      decreases |fs| - i
    {
      SegmentAt(fs, before, null, i);
      OwnedNext(fs, i);
      TextsNext(fs, i);
      AllAllocated(fs);
      var next := c.next;
      DeleteOne(c, heap, fs[i]);
      i := i + 1;
      c := next;
    }
    assert fs[..|fs|] == fs;
  }

  lemma NothingOwned()
    ensures Owned([]) == {} && Texts([]) == {}
  {
  }

  /** The loop body. */
  method DeleteOne(c: Node, heap: Heap, ghost f: Shape)
    requires c == f.node && IsNode(f) && Separate([f]) && OwnedBy(f) <= heap.live
    requires ApartIn(f) && TextsBy(f) <= heap.texts
    modifies heap
    ensures heap.live == old(heap.live) - OwnedBy(f) && heap.texts == old(heap.texts) - TextsBy(f)
    decreases f
  {
    if !c.isRef && c.child != null {
      Delete(c.child, heap, f.kids, null);
    }
    heap.FreeText(c.text);
    heap.FreeText(c.key);
    heap.Free(c);
  }

  lemma TextsNext(fs: seq<Shape>, i: nat)
    requires i < |fs| && TextsApart(fs)
    ensures Texts(fs[..i + 1]) == Texts(fs[..i]) + TextsBy(fs[i]) && TextsBy(fs[i]) <= Texts(fs)
    ensures TextsBy(fs[i]) !! Texts(fs[..i]) && ApartIn(fs[i])
  {
    hide Texts, TextsBy, TextsApart, ApartIn;
    var f := [fs[i]];
    assert fs[..i + 1] == fs[..i] + f && fs == fs[..i] + f + fs[i + 1..];
    TextsAppend(fs[..i], f);
    TextsAppend(fs[..i] + f, fs[i + 1..]);
    OneText(fs[i]);
  }

  lemma OwnedNext(fs: seq<Shape>, i: nat)
    requires i < |fs| && Separate(fs)
    ensures Owned(fs[..i + 1]) == Owned(fs[..i]) + OwnedBy(fs[i]) && OwnedBy(fs[i]) <= Owned(fs)
    ensures OwnedBy(fs[i]) !! Owned(fs[..i]) && Separate([fs[i]])
  {
    hide All, Owned, OwnedBy, Separate;
    var f := [fs[i]];
    assert fs[..i + 1] == fs[..i] + f && fs == fs[..i] + f + fs[i + 1..];
    AllAppend(fs[..i], f);
    AllAppend(fs[..i] + f, fs[i + 1..]);
    SeparateAppend(fs[..i] + f, fs[i + 1..]);
    SeparateAppend(fs[..i], f);
    One(fs[i]);
  }

  lemma One(f: Shape)
    ensures Owned([f]) == OwnedBy(f) && All([f]) == {f.node} + All(f.kids)
    ensures Separate([f]) <==> f.node !in All(f.kids) && Separate(f.kids)
  {
  }

  /** A list takes over from another predecessor. */
  method SetPrev(g: Node, x: Node?, ghost b: seq<Shape>, ghost before: Node?)
    requires b != [] && g == b[0].node && Segment(b, before, null) && Separate(b)
    modifies g`prev
    ensures Segment(b, x, null)
  {
    assert IsNode(b[0]) && Segment(b[1..], g, null);
    g.prev := x;
    assert IsNode(b[0]) && Segment(b[1..], g, null);
  }

  method SetNext(l: Node, x: Node?, ghost front: seq<Shape>, ghost k: Shape)
    requires l == k.node && Segment(front, null, l) && IsNode(k) && l.prev == LastNode(front)
    requires l !in All(front) && l !in All(k.kids)
    modifies l`next
    ensures Segment(front + [k], null, x)
  {
    l.next := x;
    Lone(k, LastNode(front), x);
    SegmentAppend(front, [k], null, x);
  }

  /** The list without element i. */
  function Without(kids: seq<Shape>, i: nat): seq<Shape>
    requires i < |kids|
  {
    kids[..i] + kids[i + 1..]
  }

  /** Where the parts of a list are, seen from element i. */
  lemma Around(kids: seq<Shape>, i: nat)
    requires i < |kids| && Segment(kids, null, null) && Separate(kids)
    ensures var a, f, b := kids[..i], kids[i], kids[i + 1..];
      && Segment(a, null, f.node) && IsNode(f) && Segment(b, f.node, null)
      && f.node.prev == LastNode(a) && f.node.next == First(b)
      && Separate(a) && Separate(b) && Separate([f]) && Separate(a + b)
      && All(a) !! All(b) && f.node !in All(a) && f.node !in All(b) && All(f.kids) !! All(a) && All(f.kids) !! All(b)
      && All(kids) == All(a) + All(b) + All([f])
      && Owned(kids) == Owned(a) + Owned(b) + OwnedBy(f)
  {
    hide Segment, Separate, All, Owned, OwnedBy;
    var a, f, b := kids[..i], kids[i], kids[i + 1..];
    assert kids == a + [f] + b;
    SegmentAppend(a + [f], b, null, null);
    SegmentAppend(a, [f], null, First(b));
    SeparateAppend(a + [f], b);
    SeparateAppend(a, [f]);
    SeparateAppend(a, b);
    AllAppend(a + [f], b);
    AllAppend(a, [f]);
    One(f);
    Lone(f, LastNode(a), First(b));
  }

  /** c.prev.next := c.next. */
  method UnlinkPrev(c: Node, x: Node?, ghost a: seq<Shape>)
    requires a != [] && c.prev == LastNode(a) && Segment(a, null, c) && Separate(a)
    modifies c.prev`next
    ensures Segment(a, null, x)
  {
    ghost var front, k := a[..|a| - 1], a[|a| - 1];
    assert a == front + [k];
    SegmentAppend(front, [k], null, c);
    Lone(k, LastNode(front), c);
    SeparateAppend(front, [k]);
    One(k);
    SetNext(c.prev, x, front, k);
  }

  /** Taking element c out of its list. */
  method Unlink(arr: Node, c: Node, ghost kids: seq<Shape>, ghost i: nat)
    requires i < |kids| && c == kids[i].node && IsNode(Shape(arr, kids, arr.key)) && Separate(kids) && arr !in All(kids)
    modifies arr`child, All(kids)
    ensures IsNode(Shape(arr, Without(kids, i), arr.key)) && Segment([kids[i]], null, null)
  {
    ghost var a, f, b := kids[..i], kids[i], kids[i + 1..];
    Around(kids, i);
    AllAppend(a + [f], b);
    AllAppend(a, [f]);
    NodesInside(a);
    NodesInside(b);
    hide Segment, Separate, All;
    Bypass(arr, c, a, f, b);
    Isolate(c, a, f, b);
    SegmentAppend(a, b, null, null);
  }

  /** The neighbours of c are linked to each other. */
  method Bypass(arr: Node, c: Node, ghost a: seq<Shape>, ghost f: Shape, ghost b: seq<Shape>)
    requires c == f.node && arr.child == First(a + [f] + b) && IsNode(f) && Separate(a) && Separate(b)
    requires Segment(a, null, c) && Segment(b, c, null) && c.prev == LastNode(a) && c.next == First(b)
    requires c !in All(a) && c !in All(b) && All(a) !! All(b) && All(f.kids) !! All(a) && All(f.kids) !! All(b)
    requires c !in All(f.kids)
    requires arr !in All(a) + All(b) + All(f.kids) && arr != c
    modifies arr`child, All(a)`next, All(b)`prev
    ensures arr.child == First(a + b) && IsNode(f) && Segment(a, null, First(b)) && Segment(b, LastNode(a), null)
  {
    NodesInside(a);
    NodesInside(b);
    AllAllocated(a);
    AllAllocated(b);
    AllAllocated(f.kids);
    if c.prev != null {
      UnlinkPrev(c, c.next, a);
    } else {
      arr.child := c.next;
    }
    if c.next != null {
      SetPrev(c.next, c.prev, b, c);
    }
  }

  /** c forgets its neighbours. */
  method Isolate(c: Node, ghost a: seq<Shape>, ghost f: Shape, ghost b: seq<Shape>)
    requires c == f.node && IsNode(f) && c !in All(f.kids) && c !in All(a) && c !in All(b)
    requires Segment(a, null, First(b)) && Segment(b, LastNode(a), null)
    modifies c`next, c`prev, c`parent
    ensures Segment([f], null, null) && Segment(a, null, First(b)) && Segment(b, LastNode(a), null)
  {
    c.next := null;
    c.prev := null;
    c.parent := null;
    Lone(f, null, null);
  }

  lemma {:induction false} NodesInside(fs: seq<Shape>)
    ensures fs != [] ==> LastNode(fs) in All(fs) && First(fs) in All(fs)
  {
    if |fs| > 1 {
      NodesInside(fs[1..]);
    }
  }

  /** cJSON_DeleteItemFromArray: the element disappears from the list, and it and what it owns are
    * freed.  Indices past the end are ignored; negative ones mean the first element. */
  method DeleteItemFromArray(arr: Node, index: int, heap: Heap, ghost kids: seq<Shape>)
    requires IsNode(Shape(arr, kids, arr.key)) && Separate(kids) && arr !in All(kids) && Owned(kids) <= heap.live
    requires TextsApart(kids) && Texts(kids) <= heap.texts
    modifies heap, arr`child, All(kids)
    ensures var i := if index < 0 then 0 else index;
      if i < |kids| then
        IsNode(Shape(arr, Without(kids, i), arr.key)) && heap.live == old(heap.live) - OwnedBy(kids[i])
        && Separate(Without(kids, i)) && Owned(Without(kids, i)) <= heap.live
      else IsNode(Shape(arr, kids, arr.key)) && heap.live == old(heap.live)
    ensures var i := if index < 0 then 0 else index;
      if i < |kids| then
        heap.texts == old(heap.texts) - TextsBy(kids[i]) && TextsApart(Without(kids, i)) &&
          Texts(Without(kids, i)) <= heap.texts
      else heap.texts == old(heap.texts)
  {
    AllAllocated(kids);
    var c := GetArrayItem(arr, index, kids);
    if c == null {
      return;
    }
    ghost var i := if index < 0 then 0 else index;
    OwnedWithout(kids, i);
    TextsWithout(kids, i);
    hide Segment, Separate, All, Owned, OwnedBy, IsNode, Texts, TextsBy, TextsApart;
    Unlink(arr, c, kids, i);
    Delete(c, heap, [kids[i]], null);
  }

  lemma OwnedWithout(kids: seq<Shape>, i: nat)
    requires i < |kids| && Segment(kids, null, null) && Separate(kids)
    ensures Owned(Without(kids, i)) == Owned(kids) - OwnedBy(kids[i]) && OwnedBy(kids[i]) <= Owned(kids)
    ensures Owned([kids[i]]) == OwnedBy(kids[i]) && Separate([kids[i]]) && Separate(Without(kids, i))
    ensures All(Without(kids, i)) <= All(kids)
  {
    var a, b := kids[..i], kids[i + 1..];
    Around(kids, i);
    AllAppend(a, b);
    One(kids[i]);
  }

  lemma TextsWithout(kids: seq<Shape>, i: nat)
    requires i < |kids| && TextsApart(kids)
    ensures Texts(Without(kids, i)) == Texts(kids) - TextsBy(kids[i]) && TextsBy(kids[i]) <= Texts(kids)
    ensures Texts([kids[i]]) == TextsBy(kids[i]) && TextsApart([kids[i]]) && TextsApart(Without(kids, i))
  {
    hide Texts, TextsBy, TextsApart, ApartIn;
    var a, f, b := kids[..i], [kids[i]], kids[i + 1..];
    assert kids == a + f + b;
    TextsAppend(a + f, b);
    TextsAppend(a, f);
    TextsAppend(a, b);
    OneText(kids[i]);
  }

  // -------------------------------------------------------------------- references and requests

  const FALSE := 0
  const TRUE := 1
  const NULL := 2
  const NUMBER := 3
  const STRING := 4
  const ARRAY := 5
  const OBJECT := 6

  /** The books on an object under construction: what was allocated before, and of that, the lists and
    * the strings that its references have borrowed. */
  datatype Ledger = Ledger(nodes: set<Node>, used: set<Node>, texts: set<Text>, lent: set<Text>)

  /** Everything else that the object holds is new. */
  ghost predicate Building(obj: Node, kids: seq<Shape>, heap: Heap, b: Ledger)
    reads heap, obj, All(kids)
  {
    && IsNode(Shape(obj, kids, obj.key)) && obj.text == null && obj.key == null
    && Accounted(obj, kids, heap.live, b) && TextsAccounted(obj, kids, heap.texts, b)
  }

  ghost predicate Accounted(obj: Node, kids: seq<Shape>, live: set<Node>, b: Ledger) {
    && Separate(kids) && obj !in All(kids) && !obj.isRef
    && obj !in b.nodes && Owned(kids) !! b.nodes && b.used <= b.nodes
    && live == b.nodes + {obj} + Owned(kids)
    && All(kids) == Owned(kids) + b.used
  }

  ghost predicate TextsAccounted(obj: Node, kids: seq<Shape>, texts: set<Text>, b: Ledger) {
    && TextsApart(kids) && b.lent <= b.texts && b.lent <= Texts(kids)
    && Texts(kids) - b.lent !! b.texts && texts == b.texts + Texts(kids)
  }

  /** One more child, which owns itself and borrows the rest. */
  lemma StillAccounted(obj: Node, kids: seq<Shape>, it: Shape, live: set<Node>, b: Ledger, lent: set<Text>)
    requires Accounted(obj, kids, live, b) && it.node !in live && it.node !in All(it.kids) && OwnedBy(it) == {it.node}
    requires Separate(it.kids) && All(it.kids) <= b.nodes - b.used
    ensures Separate(kids + [it]) && obj !in All(kids + [it])
    ensures Accounted(obj, kids + [it], live + {it.node}, b.(used := b.used + All(it.kids), lent := lent))
  {
    Grow(kids, it);
  }

  lemma Grow(kids: seq<Shape>, it: Shape)
    requires Separate(kids) && it.node !in All(kids) && it.node !in All(it.kids) && Separate(it.kids)
    requires All(it.kids) !! All(kids)
    ensures Separate(kids + [it]) && All(kids + [it]) == All(kids) + {it.node} + All(it.kids)
    ensures Owned(kids + [it]) == Owned(kids) + OwnedBy(it)
  {
    One(it);
    AllAppend(kids, [it]);
    SeparateAppend(kids, [it]);
  }

  /** Its key is new, and so is its string, unless it is borrowed. */
  lemma TextsStillAccounted(obj: Node, kids: seq<Shape>, it: Shape, texts: set<Text>, b: Ledger, lent: set<Text>,
                            used: set<Node>)
    requires TextsAccounted(obj, kids, texts, b) && lent <= b.texts - b.lent && lent <= TextsBy(it)
    requires ApartIn(it) && TextsBy(it) - lent !! texts
    ensures TextsAccounted(obj, kids + [it], texts + TextsBy(it), b.(lent := b.lent + lent, used := used))
  {
    hide Texts, TextsBy, TextsApart, ApartIn;
    OneText(it);
    TextsAppend(kids, [it]);
  }

  /** cJSON_AddStringToObject and the like: a new node without children, with its own key and string. */
  method AddNew(obj: Node, name: string, kind: int, content: string, num: J.Number, heap: Heap, ghost kids: seq<Shape>,
                ghost b: Ledger) returns (ghost more: seq<Shape>)
    requires Building(obj, kids, heap, b)
    modifies heap, obj`child, Lasts(kids)`next
    ensures Building(obj, more, heap, b) && kids <= more && fresh(Lasts(more))
  {
    hide Segment, IsNode, Separate, All, Owned, OwnedBy, Accounted, TextsAccounted, Texts, TextsBy, TextsApart, ApartIn;
    AllAllocated(kids);
    var n := MakeNode(name, kind, content, num, heap);
    ghost var it := Shape(n, [], n.key);
    NewAccounted(obj, kids, it, old(heap.live), old(heap.texts), b);
    AppendChild(obj, n, kids, it);
    more := kids + [it];
  }

  lemma NewAccounted(obj: Node, kids: seq<Shape>, it: Shape, live: set<Node>, texts: set<Text>, b: Ledger)
    requires Accounted(obj, kids, live, b) && TextsAccounted(obj, kids, texts, b)
    requires it.kids == [] && it.node !in live && ApartIn(it) && TextsBy(it) !! texts
    ensures Separate(kids + [it]) && obj !in All(kids + [it])
    ensures Accounted(obj, kids + [it], live + {it.node}, b) && TextsAccounted(obj, kids + [it], texts + TextsBy(it), b)
  {
    StillAccounted(obj, kids, it, live, b, b.lent);
    TextsStillAccounted(obj, kids, it, texts, b, {}, b.used);
    assert b.used + All([]) == b.used && b.lent + {} == b.lent;
    assert b.(used := b.used, lent := b.lent) == b;
  }

  /** cj_new with strings of its own. */
  method MakeNode(name: string, kind: int, content: string, num: J.Number, heap: Heap) returns (n: Node)
    modifies heap
    ensures fresh(n) && heap.live == old(heap.live) + {n} && n !in old(heap.live) && IsNode(Shape(n, [], n.key))
    ensures TextsBy(Shape(n, [], n.key)) !! old(heap.texts)
    ensures heap.texts == old(heap.texts) + TextsBy(Shape(n, [], n.key)) && ApartIn(Shape(n, [], n.key))
  {
    var text: Text? := null;
    if kind == STRING {
      text := heap.Dup(content);
    }
    var key := heap.Dup(name);
    n := heap.New(kind, false, text, num, key);
  }

  /** cJSON_AddItemReferenceToObject: the new node borrows the children and the string of item. */
  method AddReference(obj: Node, name: string, item: Node, heap: Heap, ghost kids: seq<Shape>,
                      ghost shared: seq<Shape>, ghost b: Ledger)
      returns (ghost more: seq<Shape>)
    requires Building(obj, kids, heap, b)
    requires IsNode(Shape(item, shared, item.key)) && Separate(shared) && All(shared) <= b.nodes - b.used
    requires Single(item.text) <= b.texts - b.lent
    modifies heap, obj`child, Lasts(kids)`next
    ensures Building(obj, more, heap, b.(used := b.used + All(shared), lent := b.lent + Single(item.text)))
    ensures kids <= more && fresh(Lasts(more))
  {
    hide Segment, IsNode, Separate, All, Owned, OwnedBy, Accounted, TextsAccounted, Texts, TextsBy, TextsApart, ApartIn;
    AllAllocated(kids);
    AllAllocated(shared);
    var n := MakeReference(name, item, heap, shared);
    ghost var it := Shape(n, shared, n.key);
    ReferenceAccounted(obj, kids, it, old(heap.live), old(heap.texts), b);
    AppendChild(obj, n, kids, it);
    more := kids + [it];
  }

  /** cj_new for a reference. */
  method MakeReference(name: string, item: Node, heap: Heap, ghost shared: seq<Shape>) returns (n: Node)
    requires IsNode(Shape(item, shared, item.key))
    modifies heap
    ensures fresh(n) && n.isRef && n.text == item.text && n.key != null && n.key !in old(heap.texts) && n.key != n.text
    ensures heap.live == old(heap.live) + {n} && n !in old(heap.live) && heap.texts == old(heap.texts) + {n.key}
    ensures IsNode(Shape(n, shared, n.key))
  {
    AllAllocated(shared);
    var key := heap.Dup(name);
    n := heap.New(item.kind, true, item.text, item.num, key);
    n.child := item.child;
  }

  lemma ReferenceAccounted(obj: Node, kids: seq<Shape>, it: Shape, live: set<Node>, texts: set<Text>, b: Ledger)
    requires Accounted(obj, kids, live, b) && TextsAccounted(obj, kids, texts, b)
    requires Separate(it.kids) && All(it.kids) <= b.nodes - b.used && Single(it.node.text) <= b.texts - b.lent
    requires it.node.isRef && it.node !in live && it.key != null && it.key !in texts && it.key != it.node.text
    ensures Separate(kids + [it]) && obj !in All(kids + [it])
    ensures var b2 := b.(used := b.used + All(it.kids), lent := b.lent + Single(it.node.text));
      Accounted(obj, kids + [it], live + {it.node}, b2) && TextsAccounted(obj, kids + [it], texts + {it.key}, b2)
  {
    hide Separate, All, Owned, Texts, TextsApart;
    var t := Single(it.node.text);
    BorrowedKids(it, b.nodes, live, obj, kids, b);
    StillAccounted(obj, kids, it, live, b, b.lent + t);
    TextsStillAccounted(obj, kids, it, texts, b, t, b.used + All(it.kids));
    assert t <= texts by {
      assert t <= b.texts;
    }
    assert texts + TextsBy(it) == texts + {it.key};
  }

  lemma BorrowedKids(it: Shape, nodes: set<Node>, live: set<Node>, obj: Node, kids: seq<Shape>, b: Ledger)
    requires Accounted(obj, kids, live, b) && All(it.kids) <= b.nodes && it.node !in live
    ensures it.node !in All(it.kids)
  {
  }

  /** The request of a chat turn: built around the message list and the tool list, printed, deleted.
    * Afterwards the same nodes are live as before, and both lists are what they were.  Of the strings, only
    * those of the two list nodes themselves are gone, if there were any. */
  method Request(model: string, system: string, messages: Node, tools: Node, heap: Heap, ghost ms: seq<Shape>,
                 ghost ts: seq<Shape>)
    requires IsNode(Shape(messages, ms, messages.key)) && IsNode(Shape(tools, ts, tools.key)) && Separate(ms)
    requires Separate(ts) && All(ms) !! All(ts)
    requires All(ms) + All(ts) + {messages, tools} <= heap.live && messages !in All(ms) && tools !in All(ts)
    requires Single(messages.text) + Single(tools.text) <= heap.texts && Single(messages.text) !! Single(tools.text)
    modifies heap
    ensures heap.live == old(heap.live) && heap.texts == old(heap.texts) - Single(messages.text) - Single(tools.text)
    ensures heap.texts == old(heap.texts) <==> messages.text == null && tools.text == null
    ensures IsNode(Shape(messages, ms, messages.key)) && IsNode(Shape(tools, ts, tools.key))
  {
    hide Segment, Separate, All, Owned, OwnedBy, Building, IsNode, Texts, TextsBy, TextsApart, Single;
    ghost var nodes, texts := heap.live, heap.texts;
    ghost var lent := Single(messages.text) + Single(tools.text);
    var req, kids := BuildRequest(model, system, messages, tools, heap, ms, ts);
    DoneBuilding(req, kids, heap, Ledger(nodes, All(ms) + All(ts), texts, lent));
    Delete(req, heap, [Shape(req, kids, req.key)], null);
    Lent(messages.text, tools.text, texts);
  }

  lemma Lent(a: Text?, b: Text?, texts: set<Text>)
    requires Single(a) + Single(b) <= texts
    ensures texts - (Single(a) + Single(b)) == texts - Single(a) - Single(b)
    ensures texts - Single(a) - Single(b) == texts <==> a == null && b == null
  {
    assert a != null ==> a in texts && a !in texts - Single(a) - Single(b);
    assert b != null ==> b in texts && b !in texts - Single(a) - Single(b);
  }

  method BuildRequest(model: string, system: string, messages: Node, tools: Node, heap: Heap, ghost ms: seq<Shape>,
                      ghost ts: seq<Shape>)
      returns (req: Node, ghost kids: seq<Shape>)
    requires IsNode(Shape(messages, ms, messages.key)) && IsNode(Shape(tools, ts, tools.key)) && Separate(ms)
    requires Separate(ts) && All(ms) !! All(ts)
    requires All(ms) + All(ts) + {messages, tools} <= heap.live && messages !in All(ms) && tools !in All(ts)
    requires Single(messages.text) + Single(tools.text) <= heap.texts && Single(messages.text) !! Single(tools.text)
    modifies heap
    ensures Building(req, kids, heap,
      Ledger(old(heap.live), All(ms) + All(ts), old(heap.texts), Single(messages.text) + Single(tools.text)))
    ensures req.next == null && req.prev == null && fresh(req)
    ensures IsNode(Shape(messages, ms, messages.key)) && IsNode(Shape(tools, ts, tools.key))
  {
    ghost var b := Ledger(heap.live, {}, heap.texts, {});
    AllAllocated(ms);
    AllAllocated(ts);
    hide *;
    req := heap.New(OBJECT, false, null, ZERO, null);
    StartBuilding(req, heap, b);
    kids := AddFields(req, model, system, heap, b);
    kids := AddLists(req, messages, tools, heap, kids, ms, ts, b);
  }

  method AddFields(req: Node, model: string, system: string, heap: Heap,
                   ghost b: Ledger) returns (ghost kids: seq<Shape>)
    requires Building(req, [], heap, b)
    modifies heap, req`child
    ensures Building(req, kids, heap, b) && fresh(Lasts(kids))
  {
    hide Building;
    kids := AddNew(req, "model", STRING, model, ZERO, heap, [], b);
    kids := AddNew(req, "max_tokens", NUMBER, "", J.Int(4096), heap, kids, b);
    kids := AddNew(req, "system", STRING, system, ZERO, heap, kids, b);
  }

  method AddLists(req: Node, messages: Node, tools: Node, heap: Heap, ghost had: seq<Shape>, ghost ms: seq<Shape>,
                  ghost ts: seq<Shape>, ghost b: Ledger) returns (ghost kids: seq<Shape>)
    requires Building(req, had, heap, b) && req !in b.nodes && Lasts(had) !! b.nodes && b.used == {} && b.lent == {}
    requires IsNode(Shape(messages, ms, messages.key)) && IsNode(Shape(tools, ts, tools.key)) && Separate(ms)
    requires Separate(ts) && All(ms) !! All(ts)
    requires All(ms) <= b.nodes && All(ts) <= b.nodes && tools in b.nodes
    requires Single(messages.text) + Single(tools.text) <= b.texts && Single(messages.text) !! Single(tools.text)
    modifies heap, req`child, Lasts(had)`next
    ensures Building(req, kids, heap, b.(used := All(ms) + All(ts), lent := Single(messages.text) + Single(tools.text)))
  {
    AllAllocated(ms);
    AllAllocated(ts);
    hide Segment, Separate, All, Owned, OwnedBy, Building, IsNode;
    ghost var b1 := b.(used := All(ms), lent := Single(messages.text));
    assert {} + All(ms) == All(ms) && {} + Single(messages.text) == Single(messages.text);
    kids := AddReference(req, "messages", messages, heap, had, ms, b);
    kids := AddReference(req, "tools", tools, heap, kids, ts, b1);
    kids := AddNew(req, "stream", TRUE, "", ZERO, heap, kids,
      b1.(used := All(ms) + All(ts), lent := Single(messages.text) + Single(tools.text)));
  }

  lemma StartBuilding(req: Node, heap: Heap, b: Ledger)
    requires req.child == null && !req.isRef && req !in b.nodes && heap.live == b.nodes + {req}
    requires req.text == null && req.key == null && heap.texts == b.texts && b.used == {} && b.lent == {}
    ensures Building(req, [], heap, b)
  {
  }

  lemma DoneBuilding(req: Node, kids: seq<Shape>, heap: Heap, b: Ledger)
    requires Building(req, kids, heap, b) && req.next == null && req.prev == null
    ensures Segment([Shape(req, kids, req.key)], null, null) && Separate([Shape(req, kids, req.key)])
    ensures Owned([Shape(req, kids, req.key)]) <= heap.live && heap.live - Owned([Shape(req, kids, req.key)]) == b.nodes
    ensures TextsApart([Shape(req, kids, req.key)]) && Texts([Shape(req, kids, req.key)]) <= heap.texts
    ensures heap.texts - Texts([Shape(req, kids, req.key)]) == b.texts - b.lent
  {
    OneText(Shape(req, kids, req.key));
  }
}
