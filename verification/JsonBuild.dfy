/** The parser as it builds its tree (tinyjson.h:223-357): what it allocates, and what it frees again when
  * the text turns out to be malformed.
  */
module JsonBuild {
  import opened Wrappers
  import opened JsonTree
  import opened JsonText
  import J = Json

  /** The node of f and its children hold the value v. */
  ghost predicate Holds(f: Shape, v: J.Value)
    decreases v
  {
    !f.node.isRef &&
    match v
    case Null => IsLeaf(f, NULL) && f.node.text == null
    case Bool(b) => IsLeaf(f, if b then TRUE else FALSE) && f.node.text == null
    case Num(n) => IsLeaf(f, NUMBER) && f.node.text == null && f.node.num == n
    case Str(s) => IsLeaf(f, STRING) && f.node.text != null && f.node.text.s == s
    case Arr(items) =>
      && f.node.kind == ARRAY && f.node.text == null && |f.kids| == |items|
      && forall i | 0 <= i < |items| :: Holds(f.kids[i], items[i])
    case Obj(members) =>
      && f.node.kind == OBJECT && f.node.text == null && |f.kids| == |members|
      && forall i | 0 <= i < |members| :: HasKey(f.kids[i], members[i].key) && Holds(f.kids[i], members[i].value)
  }

  ghost predicate IsLeaf(f: Shape, kind: int) { f.node.kind == kind && f.kids == [] }

  ghost predicate HasKey(f: Shape, key: string) { f.key != null && f.key.s == key }

  /** All that has been allocated since nodes0 and texts0 were live, and is still allocated, is what the
    * trees fs own. */
  ghost predicate Grown(fs: seq<Shape>, nodes: set<Node>, texts: set<Text>, nodes0: set<Node>, texts0: set<Text>) {
    && Separate(fs) && Owned(fs) == All(fs) && All(fs) !! nodes0 && nodes == nodes0 + All(fs)
    && TextsApart(fs) && Texts(fs) !! texts0 && texts == texts0 + Texts(fs)
  }

  /** The trees that a parser function returns: none, or one that stands alone. */
  ghost predicate Alone(n: Node?, fs: seq<Shape>)
    reads All(fs)
  {
    n == First(fs) && |fs| <= 1 && Segment(fs, null, null)
  }

  /** What a parser function has read: a tree that holds the value, with `rest` behind it, or nothing. */
  ghost predicate Read(rest: string, spec: J.Parsed<J.Value>, fs: seq<Shape>) {
    match spec
    case None => fs == []
    case Some((v, rest')) => |fs| == 1 && fs[0].key == null && Holds(fs[0], v) && rest == rest'
  }

  lemma LeafHolds(f: Shape, v: J.Value)
    requires f.kids == [] && !f.node.isRef && f.node.text == null
    requires match v
      case Null => f.node.kind == NULL
      case Bool(b) => f.node.kind == if b then TRUE else FALSE
      case Num(n) => f.node.kind == NUMBER && f.node.num == n
      case _ => false
    ensures Holds(f, v)
  {
  }

  /** Deleting what has grown restores the heap. */
  lemma GrownGoes(fs: seq<Shape>, nodes: set<Node>, texts: set<Text>, nodes0: set<Node>, texts0: set<Text>)
    requires Grown(fs, nodes, texts, nodes0, texts0)
    ensures Separate(fs) && Owned(fs) <= nodes && TextsApart(fs) && Texts(fs) <= texts
    ensures nodes - Owned(fs) == nodes0 && texts - Texts(fs) == texts0
  {
    hide Separate, TextsApart, Owned, All, Texts;
  }

  /** The root of a tree, with its children. */
  ghost predicate IsRoot(n: Node, kids: seq<Shape>)
    reads n, All(kids)
  {
    n.next == null && n.prev == null && IsNode(Shape(n, kids, null))
  }

  lemma RootAlone(n: Node, kids: seq<Shape>)
    ensures IsRoot(n, kids) <==> Alone(n, [Shape(n, kids, null)])
  {
    hide Segment;
    Lone(Shape(n, kids, null), null, null);
  }

  lemma GrownNothing(nodes: set<Node>, texts: set<Text>)
    ensures Grown([], nodes, texts, nodes, texts) && All([]) == {} && Alone(null, [])
  {
  }

  /** One new node. */
  lemma GrownLeaf(f: Shape, nodes: set<Node>, texts: set<Text>)
    requires f.kids == [] && !f.node.isRef && f.node !in nodes && f.key == null && Single(f.node.text) !! texts
    ensures Grown([f], nodes + {f.node}, texts + Single(f.node.text), nodes, texts)
  {
    One(f);
    OneText(f);
  }

  /** One more child. */
  lemma GrownChild(arr: Node, kids: seq<Shape>, it: Shape, nodes: set<Node>, texts: set<Text>, nodes1: set<Node>,
                   texts1: set<Text>, nodes0: set<Node>, texts0: set<Text>)
    requires !arr.isRef && Grown([Shape(arr, kids, null)], nodes1, texts1, nodes0, texts0)
    requires Grown([it], nodes, texts, nodes1, texts1)
    ensures Separate(kids + [it]) && arr !in All(kids + [it])
    ensures Grown([Shape(arr, kids + [it], null)], nodes, texts, nodes0, texts0)
  {
    hide Separate, All, Owned, Texts, TextsApart;
    var f, g := Shape(arr, kids, null), Shape(arr, kids + [it], null);
    One(f);
    One(g);
    OneText(f);
    OneText(g);
    OneText(it);
    AllAppend(kids, [it]);
    SeparateAppend(kids, [it]);
    TextsAppend(kids, [it]);
    assert All(kids) <= Owned(kids) by {
      OwnedKids(arr, kids);
    }
  }

  lemma OwnedKids(arr: Node, kids: seq<Shape>)
    requires !arr.isRef && Separate([Shape(arr, kids, null)])
    requires Owned([Shape(arr, kids, null)]) == All([Shape(arr, kids, null)])
    ensures Owned(kids) == All(kids)
  {
    One(Shape(arr, kids, null));
  }

  /** A key that was allocated just before becomes that of the node. */
  lemma GrownKey(f: Shape, key: Text, nodes: set<Node>, texts: set<Text>, nodes0: set<Node>, texts0: set<Text>)
    requires f.key == null && key !in texts0 && Grown([f], nodes, texts, nodes0, texts0 + {key})
    ensures Grown([f.(key := key)], nodes, texts, nodes0, texts0)
  {
    var g := f.(key := key);
    One(f);
    One(g);
    OneText(f);
    OneText(g);
  }

  // ---------------------------------------------------------------------------------- methods

  /** cj_new, for a value without children. */
  method NewLeaf(kind: int, num: J.Number, heap: Heap) returns (n: Node, ghost fs: seq<Shape>)
    modifies heap
    ensures fresh(n) && fresh(All(fs)) && Alone(n, fs) && |fs| == 1 && fs[0].key == null
    ensures Grown(fs, heap.live, heap.texts, old(heap.live), old(heap.texts))
    ensures fs == [Shape(n, [], null)] && IsRoot(n, [])
    ensures IsLeaf(fs[0], kind) && !n.isRef && n.text == null && n.num == num
  {
    n := heap.New(kind, false, null, num, null);
    fs := [Shape(n, [], null)];
    GrownLeaf(fs[0], old(heap.live), old(heap.texts));
    assert old(heap.texts) + Single(null) == old(heap.texts);
    assert IsRoot(n, []);
    RootAlone(n, []);
  }

  /** cj_parse_string: the string that was read belongs to the node. */
  method ParseString(c: Cursor, heap: Heap) returns (n: Node?, ghost fs: seq<Shape>)
    requires c.Valid()
    modifies c`p, heap
    ensures c.Valid() && c.p >= old(c.p) && fresh(All(fs)) && Alone(n, fs)
    ensures Grown(fs, heap.live, heap.texts, old(heap.live), old(heap.texts))
    ensures var spec := J.ParseString(old(c.Rest()));
      if spec.None? then fs == []
      else |fs| == 1 && fs[0].key == null && c.Rest() == spec.value.1 && Holds(fs[0], J.Str(spec.value.0))
  {
    fs := [];
    GrownNothing(heap.live, heap.texts);
    var s := c.ParseStringRaw();
    if s.None? {
      return null, [];
    }
    var text := heap.Dup(s.value);
    n := heap.New(STRING, false, text, ZERO, null);
    fs := [Shape(n, [], null)];
    GrownLeaf(fs[0], old(heap.live), old(heap.texts));
  }

  /** cj_parse_value. */
  method ParseValue(c: Cursor, heap: Heap) returns (n: Node?, ghost fs: seq<Shape>)
    requires c.Valid()
    modifies c`p, heap
    ensures c.Valid() && c.p >= old(c.p) && fresh(All(fs)) && Alone(n, fs)
    ensures Grown(fs, heap.live, heap.texts, old(heap.live), old(heap.texts))
    ensures Read(c.Rest(), J.ParseValue(old(c.Rest())), fs)
    decreases |c.text| - c.p, 1
  {
    hide Grown, Holds, J.ParseItems, J.ParseMembers, J.ParseString, J.ParseNumber;
    GrownNothing(heap.live, heap.texts);
    SkipTwice(c.Rest());
    c.SkipWs();
    if c.p >= |c.text| {
      return null, [];
    }
    var ch := c.text[c.p];
    if ch == '"' {
      n, fs := ParseString(c, heap);
      return;
    }
    if ch == '{' {
      n, fs := ParseObject(c, heap);
      return;
    }
    if ch == '[' {
      n, fs := ParseArray(c, heap);
      return;
    }
    if ch == '-' || J.IsDigit(ch) {
      n, fs := ParseNumber(c, heap);
      return;
    }
    n, fs := ParseWord(c, heap);
  }

  /** cj_parse_number. */
  method ParseNumber(c: Cursor, heap: Heap) returns (n: Node?, ghost fs: seq<Shape>)
    requires c.Valid()
    modifies c`p, heap
    ensures c.Valid() && c.p >= old(c.p) && fresh(All(fs)) && Alone(n, fs)
    ensures Grown(fs, heap.live, heap.texts, old(heap.live), old(heap.texts))
    ensures match J.ParseNumber(old(c.Rest()))
      case None => fs == []
      case Some((num, rest)) => |fs| == 1 && fs[0].key == null && c.Rest() == rest && Holds(fs[0], J.Num(num))
  {
    hide Grown, Holds, J.ParseNumber;
    GrownNothing(heap.live, heap.texts);
    var num := c.ParseNumber();
    if num.None? {
      return null, [];
    }
    n, fs := NewLeaf(NUMBER, num.value, heap);
    LeafHolds(fs[0], J.Num(num.value));
  }

  /** The words. */
  method ParseWord(c: Cursor, heap: Heap) returns (n: Node?, ghost fs: seq<Shape>)
    requires c.Valid() && J.SkipWs(c.Rest()) == c.Rest() != []
    requires var ch := c.Rest()[0]; ch != '"' && ch != '{' && ch != '[' && ch != '-' && !J.IsDigit(ch)
    modifies c`p, heap
    ensures c.Valid() && c.p >= old(c.p) && fresh(All(fs)) && Alone(n, fs)
    ensures Grown(fs, heap.live, heap.texts, old(heap.live), old(heap.texts))
    ensures Read(c.Rest(), J.ParseValue(old(c.Rest())), fs)
  {
    hide Grown, Holds, J.ParseItems, J.ParseMembers, J.ParseString, J.ParseNumber;
    GrownNothing(heap.live, heap.texts);
    var ok := c.TryWord("true");
    if ok {
      n, fs := NewLeaf(TRUE, ZERO, heap);
      LeafHolds(fs[0], J.Bool(true));
      return;
    }
    ok := c.TryWord("false");
    if ok {
      n, fs := NewLeaf(FALSE, ZERO, heap);
      LeafHolds(fs[0], J.Bool(false));
      return;
    }
    ok := c.TryWord("null");
    if ok {
      n, fs := NewLeaf(NULL, ZERO, heap);
      LeafHolds(fs[0], J.Null);
      return;
    }
    n, fs := null, [];
  }

  /** cj_parse_array. */
  method ParseArray(c: Cursor, heap: Heap) returns (n: Node?, ghost fs: seq<Shape>)
    requires c.Valid() && c.p < |c.text| && c.text[c.p] == '['
    modifies c`p, heap
    ensures c.Valid() && c.p >= old(c.p) && fresh(All(fs)) && Alone(n, fs)
    ensures Grown(fs, heap.live, heap.texts, old(heap.live), old(heap.texts))
    ensures Read(c.Rest(), J.ParseValue(old(c.Rest())), fs)
    decreases |c.text| - c.p, 0
  {
    hide Grown, Holds, J.ParseItems, J.ParseMembers, Segment, Separate, All;
    GrownNothing(heap.live, heap.texts);
    assert c.text[c.p..][1..] == c.text[c.p + 1..];
    c.p := c.p + 1;
    var arr;
    arr, fs := NewLeaf(ARRAY, ZERO, heap);
    c.SkipWs();
    if c.p < |c.text| && c.text[c.p] == ']' {
      c.p := c.p + 1;
      ArrayHolds(fs[0], []);
      return arr, fs;
    }
    n, fs := ParseItems(c, heap, arr, old(heap.live), old(heap.texts));
    assert forall o | o in All(fs) :: o == arr || o in All(fs) - {arr};
    AllAllocated(fs);
  }

  lemma ArrayHolds(f: Shape, items: seq<J.Value>)
    requires !f.node.isRef && f.node.kind == ARRAY && f.node.text == null && HoldAll(f.kids, items)
    ensures Holds(f, J.Arr(items))
  {
    hide Holds;
    assert forall i | 0 <= i < |items| :: Holds(f.kids[i], items[i]);
    ArrayHoldsIs(f, items);
  }

  lemma ArrayHoldsIs(f: Shape, items: seq<J.Value>)
    requires !f.node.isRef && f.node.kind == ARRAY && f.node.text == null && HoldAll(f.kids, items)
    ensures Holds(f, J.Arr(items))
  {
  }

  ghost predicate HoldAll(kids: seq<Shape>, items: seq<J.Value>) {
    |kids| == |items| && forall i | 0 <= i < |items| :: Holds(kids[i], items[i])
  }

  lemma LastsInside(kids: seq<Shape>)
    ensures Lasts(kids) <= All(kids)
  {
    NodesInside(kids);
  }

  /** A tree that did not come to be. */
  method Discard(arr: Node, heap: Heap, ghost kids: seq<Shape>, ghost nodes0: set<Node>, ghost texts0: set<Text>)
    requires IsRoot(arr, kids) && Grown([Shape(arr, kids, null)], heap.live, heap.texts, nodes0, texts0)
    modifies heap
    ensures Grown([], heap.live, heap.texts, nodes0, texts0)
  {
    ghost var fs := [Shape(arr, kids, null)];
    RootAlone(arr, kids);
    GrownGoes(fs, heap.live, heap.texts, nodes0, texts0);
    GrownNothing(nodes0, texts0);
    hide Grown, Segment, Separate, All, Owned, Texts, TextsApart;
    Delete(arr, heap, fs, null);
  }

  /** A new tree becomes the last child of arr. */
  method Attach(arr: Node, item: Node, heap: Heap, ghost kids: seq<Shape>, ghost it: Shape, ghost nodes: set<Node>,
                ghost texts: set<Text>, ghost nodes0: set<Node>, ghost texts0: set<Text>)
    requires !arr.isRef && IsRoot(arr, kids) && Grown([Shape(arr, kids, null)], nodes, texts, nodes0, texts0)
    requires it.node == item && IsNode(it) && Grown([it], heap.live, heap.texts, nodes, texts)
    modifies arr`child, item`parent, item`prev, item`next, Lasts(kids)`next
    ensures IsRoot(arr, kids + [it])
    ensures Grown([Shape(arr, kids + [it], null)], heap.live, heap.texts, nodes0, texts0)
  {
    GrownChild(arr, kids, it, heap.live, heap.texts, nodes, texts, nodes0, texts0);
    LastsInside(kids);
    AllAppend(kids, [it]);
    hide Grown, Segment, Separate, All, Owned;
    AppendChild(arr, item, kids, it);
  }

  /** One element: it is read and becomes the last child, or the array is deleted. */
  method AddItem(c: Cursor, heap: Heap, arr: Node, ghost kids: seq<Shape>, ghost nodes0: set<Node>,
                 ghost texts0: set<Text>)
      returns (ok: bool, ghost it: Shape)
    requires c.Valid() && !arr.isRef
    requires IsRoot(arr, kids) && Grown([Shape(arr, kids, null)], heap.live, heap.texts, nodes0, texts0)
    modifies c`p, heap, arr`child, Lasts(kids)`next
    ensures c.Valid() && c.p >= old(c.p)
    ensures !ok ==> Grown([], heap.live, heap.texts, nodes0, texts0)
    ensures ok ==> fresh(All([it])) && IsRoot(arr, kids + [it])
    ensures ok ==> Grown([Shape(arr, kids + [it], null)], heap.live, heap.texts, nodes0, texts0)
    ensures match J.ParseValue(J.SkipWs(old(c.Rest())))
      case None => !ok
      case Some((v, rest)) => ok && Holds(it, v) && c.Rest() == rest
    decreases |c.text| - c.p, 2
  {
    hide Grown, Holds, Segment, Separate, All, Owned, J.ParseValue;
    AllAllocated(kids);
    c.SkipWs();
    ghost var nodes, texts := heap.live, heap.texts;
    AllAllocated(kids);
    var item;
    ghost var fs;
    item, fs := ParseValue(c, heap);
    it := Shape(arr, [], null);
    AllAllocated(kids);
    if item == null {
      GrownNone(fs, heap.live, heap.texts, nodes, texts);
      Discard(arr, heap, kids, nodes0, texts0);
      return false, it;
    }
    it := fs[0];
    assert fs == [it];
    Lone(it, null, null);
    One(it);
    Attach(arr, item, heap, kids, it, nodes, texts, nodes0, texts0);
    ok := true;
  }

  /** How a round of a loop ends. */
  datatype Round = GoesOn | Closes | Fails

  /** One round of the loop of cj_parse_array. */
  method ItemRound(c: Cursor, heap: Heap, arr: Node, ghost kids: seq<Shape>, ghost items: seq<J.Value>,
                   ghost nodes0: set<Node>, ghost texts0: set<Text>)
      returns (r: Round, ghost it: Shape, ghost v: J.Value)
    requires c.Valid() && !arr.isRef && HoldAll(kids, items)
    requires IsRoot(arr, kids) && Grown([Shape(arr, kids, null)], heap.live, heap.texts, nodes0, texts0)
    modifies c`p, heap, arr`child, Lasts(kids)`next
    ensures c.Valid() && c.p >= old(c.p) && (r.GoesOn? ==> c.p > old(c.p))
    ensures r.Fails? ==> Grown([], heap.live, heap.texts, nodes0, texts0) && J.ParseItems(old(c.Rest()), items).None?
    ensures !r.Fails? ==> fresh(All([it])) && IsRoot(arr, kids + [it]) && HoldAll(kids + [it], items + [v])
    ensures !r.Fails? ==> Grown([Shape(arr, kids + [it], null)], heap.live, heap.texts, nodes0, texts0)
    ensures r.GoesOn? ==> J.ParseItems(old(c.Rest()), items) == J.ParseItems(c.Rest(), items + [v])
    ensures r.Closes? ==> J.ParseItems(old(c.Rest()), items) == Some((items + [v], c.Rest()))
    decreases |c.text| - c.p, 3
  {
    hide Grown, Holds, Segment, Separate, All, Owned, IsRoot, J.ParseValue, J.ParseItems;
    ghost var here := c.Rest();
    var ok;
    r, v := Fails, J.Null;
    ok, it := AddItem(c, heap, arr, kids, nodes0, texts0);
    if !ok {
      J.ItemsStop(here, items);
      return;
    }
    v := J.ParseValue(J.SkipWs(here)).value.0;
    AllAllocated(kids + [it]);
    c.SkipWs();
    J.ItemsGoOn(here, items);
    if c.p < |c.text| && c.text[c.p] == ',' {
      r := GoesOn;
      c.p := c.p + 1;
    } else if c.p < |c.text| && c.text[c.p] == ']' {
      r := Closes;
      c.p := c.p + 1;
    } else {
      Discard(arr, heap, kids + [it], nodes0, texts0);
    }
  }

  /** The loop of cj_parse_array. */
  method ParseItems(c: Cursor, heap: Heap, arr: Node, ghost nodes0: set<Node>, ghost texts0: set<Text>)
      returns (n: Node?, ghost fs: seq<Shape>)
    requires c.Valid() && !arr.isRef && arr.kind == ARRAY && arr.text == null
    requires IsRoot(arr, []) && Grown([Shape(arr, [], null)], heap.live, heap.texts, nodes0, texts0)
    modifies c`p, heap, arr`child
    ensures c.Valid() && c.p >= old(c.p) && fresh(All(fs) - {arr}) && Alone(n, fs)
    ensures Grown(fs, heap.live, heap.texts, nodes0, texts0)
    ensures match J.ParseItems(old(c.Rest()), [])
      case None => fs == []
      case Some((items, rest)) => |fs| == 1 && fs[0].key == null && Holds(fs[0], J.Arr(items)) && c.Rest() == rest
    decreases |c.text| - c.p, 4
  {
    hide Grown, Holds, HoldAll, Segment, Separate, All, Owned, IsRoot, J.ParseItems;
    ghost var start := c.Rest();
    ghost var kids: seq<Shape>, items: seq<J.Value> := [], [];
    GrownNothing(nodes0, texts0);
    NothingHeld();
    var r := GoesOn;
    while r.GoesOn?
      invariant c.Valid() && c.p >= old(c.p) && fresh(All(kids))
      invariant !r.Fails? ==>
        IsRoot(arr, kids) && Grown([Shape(arr, kids, null)], heap.live, heap.texts, nodes0, texts0)
      invariant !r.Fails? ==> HoldAll(kids, items)
      invariant r.GoesOn? ==> J.ParseItems(c.Rest(), items) == J.ParseItems(start, [])
      invariant r.Closes? ==> J.ParseItems(start, []) == Some((items, c.Rest()))
      invariant r.Fails? ==>
        J.ParseItems(start, []).None? && Grown([], heap.live, heap.texts, nodes0, texts0)
      decreases r.GoesOn?, |c.text| - c.p
    {
      LastsInside(kids);
      AllAllocated(kids);
      ghost var it, v;
      r, it, v := ItemRound(c, heap, arr, kids, items, nodes0, texts0);
      if !r.Fails? {
        AllAppend(kids, [it]);
        kids, items := kids + [it], items + [v];
      }
    }
    if r.Fails? {
      return null, [];
    }
    fs := [Shape(arr, kids, null)];
    RootAlone(arr, kids);
    ArrayHolds(fs[0], items);
    One(fs[0]);
    n := arr;
  }

  lemma NothingHeld()
    ensures HoldAll([], []) && HoldMembers([], [])
  {
  }

  /** cj_parse_object. */
  method ParseObject(c: Cursor, heap: Heap) returns (n: Node?, ghost fs: seq<Shape>)
    requires c.Valid() && c.p < |c.text| && c.text[c.p] == '{'
    modifies c`p, heap
    ensures c.Valid() && c.p >= old(c.p) && fresh(All(fs)) && Alone(n, fs)
    ensures Grown(fs, heap.live, heap.texts, old(heap.live), old(heap.texts))
    ensures Read(c.Rest(), J.ParseValue(old(c.Rest())), fs)
    decreases |c.text| - c.p, 0
  {
    hide Grown, Holds, J.ParseItems, J.ParseMembers, Segment, Separate, All;
    GrownNothing(heap.live, heap.texts);
    assert c.text[c.p..][1..] == c.text[c.p + 1..];
    c.p := c.p + 1;
    var obj;
    obj, fs := NewLeaf(OBJECT, ZERO, heap);
    c.SkipWs();
    if c.p < |c.text| && c.text[c.p] == '}' {
      c.p := c.p + 1;
      ObjectHolds(fs[0], []);
      return obj, fs;
    }
    n, fs := ParseMembers(c, heap, obj, old(heap.live), old(heap.texts));
    assert forall o | o in All(fs) :: o == obj || o in All(fs) - {obj};
    AllAllocated(fs);
  }

  ghost predicate HoldsMember(f: Shape, m: J.Member) { HasKey(f, m.key) && Holds(f, m.value) }

  ghost predicate HoldMembers(kids: seq<Shape>, members: seq<J.Member>) {
    |kids| == |members| && forall i | 0 <= i < |members| :: HoldsMember(kids[i], members[i])
  }

  lemma ObjectHolds(f: Shape, members: seq<J.Member>)
    requires !f.node.isRef && f.node.kind == OBJECT && f.node.text == null && HoldMembers(f.kids, members)
    ensures Holds(f, J.Obj(members))
  {
    assert forall i | 0 <= i < |members| :: HoldsMember(f.kids[i], members[i]);
  }

  /** A value gets its key. */
  method SetKey(item: Node, key: Text, ghost f: Shape)
    requires f.node == item && f.key == null && Segment([f], null, null) && Separate([f])
    modifies item`key
    ensures Segment([f.(key := key)], null, null)
  {
    One(f);
    Lone(f, null, null);
    item.key := key;
    Lone(f.(key := key), null, null);
  }

  /** What is read behind a key. */
  function AfterKey(key: string, s: string): J.Parsed<J.Member> {
    var u := J.SkipWs(s);
    if u == [] || u[0] != ':' then None
    else match J.ParseValue(J.SkipWs(u[1..])) case None => None case Some((v, rest)) => Some((J.Member(key, v), rest))
  }

  lemma MemberIs(s: string)
    ensures J.ParseMember(s)
         == match J.ParseString(J.SkipWs(s)) case None => None case Some((key, rest)) => AfterKey(key, rest)
  {
    hide J.ParseString, J.ParseValue;
  }

  /** What a member is read as. */
  ghost predicate ReadMember(rest: string, spec: J.Parsed<J.Member>, fs: seq<Shape>) {
    match spec
    case None => fs == []
    case Some((m, rest')) => |fs| == 1 && HoldsMember(fs[0], m) && rest == rest'
  }

  /** One key and its value. */
  method ParseMember(c: Cursor, heap: Heap) returns (n: Node?, ghost fs: seq<Shape>)
    requires c.Valid()
    modifies c`p, heap
    ensures c.Valid() && c.p >= old(c.p) && fresh(All(fs)) && Alone(n, fs)
    ensures Grown(fs, heap.live, heap.texts, old(heap.live), old(heap.texts))
    ensures ReadMember(c.Rest(), J.ParseMember(old(c.Rest())), fs)
    decreases |c.text| - c.p, 3
  {
    hide Grown, Holds, Segment, Separate, J.ParseString, J.ParseMember, AfterKey;
    ghost var nodes0, texts0 := heap.live, heap.texts;
    GrownNothing(nodes0, texts0);
    MemberIs(c.Rest());
    c.SkipWs();
    var key := c.ParseStringRaw();
    if key.None? {
      return null, [];
    }
    var k := heap.Dup(key.value);
    n, fs := ParseAfterKey(c, heap, k, nodes0, texts0);
  }

  /** The key is on the heap already. */
  method ParseAfterKey(c: Cursor, heap: Heap, k: Text, ghost nodes0: set<Node>, ghost texts0: set<Text>)
      returns (n: Node?, ghost fs: seq<Shape>)
    requires c.Valid() && heap.live == nodes0 && heap.texts == texts0 + {k} && k !in texts0
    modifies c`p, heap
    ensures c.Valid() && c.p >= old(c.p) && fresh(All(fs)) && Alone(n, fs)
    ensures Grown(fs, heap.live, heap.texts, nodes0, texts0)
    ensures ReadMember(c.Rest(), AfterKey(k.s, old(c.Rest())), fs)
    decreases |c.text| - c.p, 2
  {
    hide Grown, Holds, Segment, Separate, J.ParseValue;
    GrownNothing(nodes0, texts0);
    assert texts0 + {k} - {k} == texts0;
    c.SkipWs();
    if c.p >= |c.text| || c.text[c.p] != ':' {
      heap.FreeText(k);
      return null, [];
    }
    c.p := c.p + 1;
    c.SkipWs();
    n, fs := ParseValue(c, heap);
    if n == null {
      GrownNone(fs, heap.live, heap.texts, nodes0, texts0 + {k});
      heap.FreeText(k);
      return null, [];
    }
    ghost var f := fs[0];
    assert fs == [f];
    GrownGoes(fs, heap.live, heap.texts, nodes0, texts0 + {k});
    GrownKey(f, k, heap.live, heap.texts, nodes0, texts0);
    One(f);
    One(f.(key := k));
    HoldsKey(f, k);
    SetKey(n, k, f);
    fs := [f.(key := k)];
  }

  lemma GrownNone(fs: seq<Shape>, nodes: set<Node>, texts: set<Text>, nodes0: set<Node>, texts0: set<Text>)
    requires fs == [] && Grown(fs, nodes, texts, nodes0, texts0)
    ensures nodes == nodes0 && texts == texts0
  {
  }

  lemma HoldsKey(f: Shape, key: Text)
    ensures forall v :: Holds(f, v) ==> Holds(f.(key := key), v)
  {
  }

  /** One member: it is read and becomes the last child, or the object is deleted. */
  method AddMember(c: Cursor, heap: Heap, obj: Node, ghost kids: seq<Shape>, ghost nodes0: set<Node>,
                   ghost texts0: set<Text>)
      returns (ok: bool, ghost it: Shape)
    requires c.Valid() && !obj.isRef
    requires IsRoot(obj, kids) && Grown([Shape(obj, kids, null)], heap.live, heap.texts, nodes0, texts0)
    modifies c`p, heap, obj`child, Lasts(kids)`next
    ensures c.Valid() && c.p >= old(c.p)
    ensures !ok ==> Grown([], heap.live, heap.texts, nodes0, texts0)
    ensures ok ==> fresh(All([it])) && IsRoot(obj, kids + [it])
    ensures ok ==> Grown([Shape(obj, kids + [it], null)], heap.live, heap.texts, nodes0, texts0)
    ensures match J.ParseMember(old(c.Rest()))
      case None => !ok
      case Some((m, rest)) => ok && HoldsMember(it, m) && c.Rest() == rest
    decreases |c.text| - c.p, 4
  {
    hide Grown, Holds, Segment, Separate, All, Owned, J.ParseMember;
    ghost var nodes, texts := heap.live, heap.texts;
    AllAllocated(kids);
    var item;
    ghost var fs;
    item, fs := ParseMember(c, heap);
    it := Shape(obj, [], null);
    AllAllocated(kids);
    if item == null {
      GrownNone(fs, heap.live, heap.texts, nodes, texts);
      Discard(obj, heap, kids, nodes0, texts0);
      return false, it;
    }
    it := fs[0];
    assert fs == [it];
    Lone(it, null, null);
    One(it);
    Attach(obj, item, heap, kids, it, nodes, texts, nodes0, texts0);
    ok := true;
  }

  /** One round of the loop of cj_parse_object. */
  method MemberRound(c: Cursor, heap: Heap, obj: Node, ghost kids: seq<Shape>, ghost members: seq<J.Member>,
                     ghost nodes0: set<Node>, ghost texts0: set<Text>)
      returns (r: Round, ghost it: Shape, ghost m: J.Member)
    requires c.Valid() && !obj.isRef && HoldMembers(kids, members)
    requires IsRoot(obj, kids) && Grown([Shape(obj, kids, null)], heap.live, heap.texts, nodes0, texts0)
    modifies c`p, heap, obj`child, Lasts(kids)`next
    ensures c.Valid() && c.p >= old(c.p) && (r.GoesOn? ==> c.p > old(c.p))
    ensures r.Fails? ==>
      Grown([], heap.live, heap.texts, nodes0, texts0) && J.ParseMembers(old(c.Rest()), members).None?
    ensures !r.Fails? ==> fresh(All([it])) && IsRoot(obj, kids + [it]) && HoldMembers(kids + [it], members + [m])
    ensures !r.Fails? ==> Grown([Shape(obj, kids + [it], null)], heap.live, heap.texts, nodes0, texts0)
    ensures r.GoesOn? ==> J.ParseMembers(old(c.Rest()), members) == J.ParseMembers(c.Rest(), members + [m])
    ensures r.Closes? ==> J.ParseMembers(old(c.Rest()), members) == Some((members + [m], c.Rest()))
    decreases |c.text| - c.p, 5
  {
    hide Grown, Holds, Segment, Separate, All, Owned, IsRoot, HoldsMember, J.ParseMember, J.ParseMembers;
    ghost var here := c.Rest();
    var ok;
    r, m := Fails, J.Member("", J.Null);
    ok, it := AddMember(c, heap, obj, kids, nodes0, texts0);
    if !ok {
      J.MembersStop(here, members);
      return;
    }
    m := J.ParseMember(here).value.0;
    AllAllocated(kids + [it]);
    c.SkipWs();
    J.MembersGoOn(here, members);
    if c.p < |c.text| && c.text[c.p] == ',' {
      r := GoesOn;
      c.p := c.p + 1;
    } else if c.p < |c.text| && c.text[c.p] == '}' {
      r := Closes;
      c.p := c.p + 1;
    } else {
      Discard(obj, heap, kids + [it], nodes0, texts0);
    }
  }

  /** The loop of cj_parse_object. */
  method ParseMembers(c: Cursor, heap: Heap, obj: Node, ghost nodes0: set<Node>, ghost texts0: set<Text>)
      returns (n: Node?, ghost fs: seq<Shape>)
    requires c.Valid() && !obj.isRef && obj.kind == OBJECT && obj.text == null
    requires IsRoot(obj, []) && Grown([Shape(obj, [], null)], heap.live, heap.texts, nodes0, texts0)
    modifies c`p, heap, obj`child
    ensures c.Valid() && c.p >= old(c.p) && fresh(All(fs) - {obj}) && Alone(n, fs)
    ensures Grown(fs, heap.live, heap.texts, nodes0, texts0)
    ensures match J.ParseMembers(old(c.Rest()), [])
      case None => fs == []
      case Some((members, rest)) => |fs| == 1 && fs[0].key == null && Holds(fs[0], J.Obj(members)) && c.Rest() == rest
    decreases |c.text| - c.p, 6
  {
    hide Grown, Holds, HoldMembers, Segment, Separate, All, Owned, IsRoot, J.ParseMembers;
    ghost var start := c.Rest();
    ghost var kids: seq<Shape>, members: seq<J.Member> := [], [];
    GrownNothing(nodes0, texts0);
    NothingHeld();
    var r := GoesOn;
    while r.GoesOn?
      invariant c.Valid() && c.p >= old(c.p) && fresh(All(kids))
      invariant !r.Fails? ==>
        IsRoot(obj, kids) && Grown([Shape(obj, kids, null)], heap.live, heap.texts, nodes0, texts0)
      invariant !r.Fails? ==> HoldMembers(kids, members)
      invariant r.GoesOn? ==> J.ParseMembers(c.Rest(), members) == J.ParseMembers(start, [])
      invariant r.Closes? ==> J.ParseMembers(start, []) == Some((members, c.Rest()))
      invariant r.Fails? ==>
        J.ParseMembers(start, []).None? && Grown([], heap.live, heap.texts, nodes0, texts0)
      decreases r.GoesOn?, |c.text| - c.p
    {
      LastsInside(kids);
      AllAllocated(kids);
      ghost var it, m;
      r, it, m := MemberRound(c, heap, obj, kids, members, nodes0, texts0);
      if !r.Fails? {
        AllAppend(kids, [it]);
        kids, members := kids + [it], members + [m];
      }
    }
    if r.Fails? {
      return null, [];
    }
    fs := [Shape(obj, kids, null)];
    RootAlone(obj, kids);
    ObjectHolds(fs[0], members);
    One(fs[0]);
    n := obj;
  }

  /** cJSON_Parse: a tree that holds the first value of the text, and owns everything that has been
    * allocated; or nothing, and everything has been freed again. */
  method Parse(text: string, heap: Heap) returns (n: Node?, ghost fs: seq<Shape>)
    modifies heap
    ensures fresh(All(fs)) && Alone(n, fs) && Grown(fs, heap.live, heap.texts, old(heap.live), old(heap.texts))
    ensures match J.ParseValue(text)
      case None => n == null
      case Some((v, _)) => n != null && |fs| == 1 && Holds(fs[0], v)
  {
    hide Grown, Holds, Segment, J.ParseValue;
    var c := new Cursor(text);
    assert text[0..] == text;
    n, fs := ParseValue(c, heap);
  }

  /** Parsing a text and deleting the result leaves the heap as it was, whatever the text. */
  method ParseAndDelete(text: string, heap: Heap)
    modifies heap
    ensures heap.live == old(heap.live) && heap.texts == old(heap.texts)
  {
    ghost var fs;
    var n;
    n, fs := Parse(text, heap);
    GrownGoes(fs, heap.live, heap.texts, old(heap.live), old(heap.texts));
    Delete(n, heap, fs, null);
  }
}
