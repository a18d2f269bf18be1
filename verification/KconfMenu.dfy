/**
 * The menu tree: nodes linked by child, sibling and parent pointers, the restructuring that turns
 * dependent siblings into submenus and dissolves blocks without a prompt, and the pointer walk that
 * writes the configuration.
 */
module KconfForest {
  class Menu {
    const hasSym: bool   // the entry declares a symbol
    const prompted: bool // the entry has a prompt text
    var list: Menu?      // first child
    var next: Menu?      // next sibling
    var parent: Menu?

    constructor (hasSym: bool, prompted: bool)
      ensures this.hasSym == hasSym && this.prompted == prompted
      ensures list == null && next == null && parent == null
    {
      this.hasSym, this.prompted := hasSym, prompted;
      list, next, parent := null, null, null;
    }
  }

  /** A list of siblings, each with the list of its children. */
  datatype Forest = Nil | Cons(node: Menu, kids: Forest, rest: Forest)

  /** Whether an entry's dependencies place it below an earlier sibling. */
  type Nesting = (Menu, Menu) -> bool

  function Preorder(f: Forest): seq<Menu> {
    match f
    case Nil => []
    case Cons(m, kids, rest) => [m] + Preorder(kids) + Preorder(rest)
  }

  ghost function Nodes(f: Forest): set<Menu> {
    match f
    case Nil => {}
    case Cons(m, kids, rest) => {m} + Nodes(kids) + Nodes(rest)
  }

  function Head(f: Forest, tail: Menu?): Menu? {
    if f.Nil? then tail else f.node
  }

  function Append(f: Forest, g: Forest): (h: Forest)
    ensures Preorder(h) == Preorder(f) + Preorder(g)
    ensures g.Nil? ==> h == f
  {
    if f.Nil? then g else
      var h := Cons(f.node, f.kids, Append(f.rest, g));
      assert Preorder(h) == [f.node] + Preorder(f.kids) + (Preorder(f.rest) + Preorder(g));
      h
  }

  lemma {:induction false} AppendAssociates(f: Forest, g: Forest, h: Forest)
    ensures Append(Append(f, g), h) == Append(f, Append(g, h))
  {
    if f.Cons? {
      AppendAssociates(f.rest, g, h);
    }
  }

  /** Lift the children of every entry without a prompt to its own level, right behind it. */
  function Flatten(f: Forest): (g: Forest)
    ensures Preorder(g) == Preorder(f)
    decreases |Preorder(f)|
  {
    if f.Nil? then Nil
    else if f.kids.Cons? && !f.node.prompted then
      assert Preorder(f) == [f.node] + (Preorder(f.kids) + Preorder(f.rest));
      Cons(f.node, Nil, Flatten(Append(f.kids, f.rest)))
    else Cons(f.node, f.kids, Flatten(f.rest))
  }

  /** No entry without a prompt has children at this level. */
  ghost predicate Flat(f: Forest) {
    f.Cons? ==> (f.kids.Cons? ==> f.node.prompted) && Flat(f.rest)
  }

  lemma {:induction false} FlattenIsFlat(f: Forest)
    ensures Flat(Flatten(f))
    decreases |Preorder(f)|
  {
    if f.Cons? {
      if f.kids.Cons? && !f.node.prompted {
        FlattenIsFlat(Append(f.kids, f.rest));
      } else {
        FlattenIsFlat(f.rest);
      }
    }
  }

  /** An entry with these children is on the level of this list. */
  ghost predicate Has(f: Forest, m: Menu, kids: Forest) {
    f.Cons? && ((f.node == m && f.kids == kids) || Has(f.rest, m, kids))
  }

  /** An entry with these children rises to this level: only entries without a prompt are above it. */
  ghost predicate Rises(f: Forest, m: Menu, kids: Forest) {
    f.Cons? &&
    (Rises(f.rest, m, kids) ||
     (if f.node.prompted || f.kids.Nil? then f.node == m && f.kids == kids
      else (f.node == m && kids.Nil?) || Rises(f.kids, m, kids)))
  }

  lemma {:induction false} RisesAppend(f: Forest, g: Forest, m: Menu, kids: Forest)
    ensures Rises(Append(f, g), m, kids) <==> Rises(f, m, kids) || Rises(g, m, kids)
  {
    if f.Cons? {
      RisesAppend(f.rest, g, m, kids);
    }
  }

  /** What flattening leaves on a level is exactly what rises to it. */
  lemma {:induction false} FlattenExact(f: Forest, m: Menu, kids: Forest)
    ensures Has(Flatten(f), m, kids) <==> Rises(f, m, kids)
    decreases |Preorder(f)|
  {
    if f.Cons? {
      if f.kids.Cons? && !f.node.prompted {
        FlattenExact(Append(f.kids, f.rest), m, kids);
        RisesAppend(f.kids, f.rest, m, kids);
      } else {
        FlattenExact(f.rest, m, kids);
      }
    }
  }

  /** The children and the later siblings of an entry after it has been finalized. */
  datatype Split = Split(kids: Forest, rest: Forest)

  /** What finalizing an entry does to its children and its later siblings. */
  function FinalizeNode(nests: Nesting, p: Menu, kids: Forest, rest: Forest): (s: Split)
    ensures Preorder(s.kids) + Preorder(s.rest) == Preorder(kids) + Preorder(rest)
    decreases |Preorder(kids)| + |Preorder(rest)|, 1
  {
    if kids.Cons? then Split(Flatten(FinalizeList(nests, kids)), rest)
    else if p.hasSym then
      var s := Absorb(nests, p, rest);
      Split(Flatten(s.kids), s.rest)
    else Split(Nil, rest)
  }

  function FinalizeList(nests: Nesting, f: Forest): (g: Forest)
    ensures Preorder(g) == Preorder(f)
    decreases |Preorder(f)|, 0
  {
    if f.Nil? then Nil else
      var s := FinalizeNode(nests, f.node, f.kids, f.rest);
      SplitPreorder(f, s);
      Cons(f.node, s.kids, FinalizeList(nests, s.rest))
  }

  /** The later siblings that become children of `p`, each finalized first, and those that stay. */
  function Absorb(nests: Nesting, p: Menu, f: Forest): (s: Split)
    ensures Preorder(s.kids) + Preorder(s.rest) == Preorder(f)
    decreases |Preorder(f)|, 0
  {
    if f.Nil? || !nests(p, f.node) then
      assert Preorder(Nil) + Preorder(f) == Preorder(f);
      Split(Nil, f)
    else
      var s := FinalizeNode(nests, f.node, f.kids, f.rest);
      SplitPreorder(f, s);
      var t := Absorb(nests, p, s.rest);
      AbsorbPreorder(f.node, s, t);
      Split(Cons(f.node, s.kids, t.kids), t.rest)
  }

  lemma SplitPreorder(f: Forest, s: Split)
    requires f.Cons? && Preorder(s.kids) + Preorder(s.rest) == Preorder(f.kids) + Preorder(f.rest)
    ensures Preorder(f) == [f.node] + Preorder(s.kids) + Preorder(s.rest)
  {
    assert [f.node] + Preorder(s.kids) + Preorder(s.rest) == [f.node] + (Preorder(s.kids) + Preorder(s.rest));
    assert Preorder(f) == [f.node] + (Preorder(f.kids) + Preorder(f.rest));
  }

  lemma AbsorbPreorder(m: Menu, s: Split, t: Split)
    requires Preorder(t.kids) + Preorder(t.rest) == Preorder(s.rest)
    ensures Preorder(Cons(m, s.kids, t.kids)) + Preorder(t.rest) == [m] + Preorder(s.kids) + Preorder(s.rest)
  {
  }
  /** A list of siblings from some entry on. */
  ghost predicate Suffix(g: Forest, f: Forest) {
    g == f || (f.Cons? && Suffix(g, f.rest))
  }

  lemma {:induction false} SuffixTrans(h: Forest, g: Forest, f: Forest)
    requires Suffix(h, g) && Suffix(g, f)
    ensures Suffix(h, f)
  {
    if g != f {
      SuffixTrans(h, g, f.rest);
    }
  }

  /**
   * Which siblings an entry takes in. One that has children already takes none, nor does one that
   * declares no symbol or is not followed by an entry that nests below it. Any other takes that entry as
   * its first child, and a stretch of siblings up to the first one left, which does not nest below it.
   */
  ghost predicate Placed(nests: Nesting, p: Menu, kids: Forest, rest: Forest, s: Split) {
    if kids.Cons? then
      s.kids.Cons? && s.kids.node == kids.node && s.rest == rest
    else if !p.hasSym || rest.Nil? || !nests(p, rest.node) then
      s == Split(Nil, rest)
    else
      s.kids.Cons? && s.kids.node == rest.node && Suffix(s.rest, rest.rest) &&
      (s.rest.Cons? ==> !nests(p, s.rest.node))
  }

  lemma FinalizeNodePlaces(nests: Nesting, p: Menu, kids: Forest, rest: Forest)
    ensures Placed(nests, p, kids, rest, FinalizeNode(nests, p, kids, rest))
  {
    if kids.Nil? && p.hasSym && rest.Cons? && nests(p, rest.node) {
      AbsorbRest(nests, p, rest);
    }
  }

  /** What is left is untouched, and starts with an entry that does not nest. */
  lemma {:induction false} AbsorbRest(nests: Nesting, p: Menu, f: Forest)
    ensures var s := Absorb(nests, p, f);
      Suffix(s.rest, f) && (s.rest.Cons? ==> !nests(p, s.rest.node)) &&
      (f.Cons? && nests(p, f.node) ==> Suffix(s.rest, f.rest))
    decreases |Preorder(f)|, 0
  {
    if f.Cons? && nests(p, f.node) {
      var s := FinalizeNode(nests, f.node, f.kids, f.rest);
      SplitPreorder(f, s);
      FinalizeNodeRest(nests, f.node, f.kids, f.rest);
      AbsorbRest(nests, p, s.rest);
      SuffixTrans(Absorb(nests, p, s.rest).rest, s.rest, f.rest);
    }
  }

  lemma {:induction false} FinalizeNodeRest(nests: Nesting, p: Menu, kids: Forest, rest: Forest)
    ensures Suffix(FinalizeNode(nests, p, kids, rest).rest, rest)
    decreases |Preorder(rest)|, 1
  {
    if kids.Nil? && p.hasSym {
      AbsorbRest(nests, p, rest);
    }
  }

  /** Every entry taken in nests below the entry that takes it, and was one of the siblings. */
  lemma {:induction false} AbsorbedNest(nests: Nesting, p: Menu, f: Forest, m: Menu, kids: Forest)
    requires Has(Absorb(nests, p, f).kids, m, kids)
    ensures nests(p, m) && exists k :: Has(f, m, k)
    decreases |Preorder(f)|
  {
    var s := FinalizeNode(nests, f.node, f.kids, f.rest);
    SplitPreorder(f, s);
    if Has(Absorb(nests, p, s.rest).kids, m, kids) {
      AbsorbedNest(nests, p, s.rest, m, kids);
      FinalizeNodeRest(nests, f.node, f.kids, f.rest);
      var k :| Has(s.rest, m, k);
      HasSuffix(s.rest, f.rest, m, k);
      assert Has(f, m, k);
    } else {
      assert Has(f, m, f.kids);
    }
  }

  lemma {:induction false} HasSuffix(g: Forest, f: Forest, m: Menu, kids: Forest)
    requires Suffix(g, f) && Has(g, m, kids)
    ensures Has(f, m, kids)
  {
    if g != f {
      HasSuffix(g, f.rest, m, kids);
    }
  }

  /** No entry without a prompt has children, at any depth. */
  ghost predicate DeepFlat(f: Forest) {
    f.Cons? ==> (f.kids.Cons? ==> f.node.prompted) && DeepFlat(f.kids) && DeepFlat(f.rest)
  }

  /** The same below the entries of this level. */
  ghost predicate FlatBelow(f: Forest) {
    f.Cons? ==> DeepFlat(f.kids) && FlatBelow(f.rest)
  }

  lemma {:induction false} FlatBelowAppend(f: Forest, g: Forest)
    requires DeepFlat(f) && FlatBelow(g)
    ensures FlatBelow(Append(f, g))
  {
    if f.Cons? {
      FlatBelowAppend(f.rest, g);
    }
  }

  lemma {:induction false} FlattenIsDeepFlat(f: Forest)
    requires FlatBelow(f)
    ensures DeepFlat(Flatten(f))
    decreases |Preorder(f)|
  {
    if f.Cons? {
      if f.kids.Cons? && !f.node.prompted {
        FlatBelowAppend(f.kids, f.rest);
        FlattenIsDeepFlat(Append(f.kids, f.rest));
      } else {
        FlattenIsDeepFlat(f.rest);
      }
    }
  }

  /** Finalizing leaves no children below an entry without a prompt. */
  lemma {:induction false} FinalizeNodeDeepFlat(nests: Nesting, p: Menu, kids: Forest, rest: Forest)
    ensures DeepFlat(FinalizeNode(nests, p, kids, rest).kids)
    decreases |Preorder(kids)| + |Preorder(rest)|, 1
  {
    if kids.Cons? {
      FinalizeListFlatBelow(nests, kids);
      FlattenIsDeepFlat(FinalizeList(nests, kids));
    } else if p.hasSym {
      AbsorbFlatBelow(nests, p, rest);
      FlattenIsDeepFlat(Absorb(nests, p, rest).kids);
    }
  }

  lemma {:induction false} FinalizeListFlatBelow(nests: Nesting, f: Forest)
    ensures FlatBelow(FinalizeList(nests, f))
    decreases |Preorder(f)|, 0
  {
    if f.Cons? {
      SplitPreorder(f, FinalizeNode(nests, f.node, f.kids, f.rest));
      FinalizeNodeDeepFlat(nests, f.node, f.kids, f.rest);
      FinalizeListFlatBelow(nests, FinalizeNode(nests, f.node, f.kids, f.rest).rest);
    }
  }

  lemma {:induction false} AbsorbFlatBelow(nests: Nesting, p: Menu, f: Forest)
    ensures FlatBelow(Absorb(nests, p, f).kids)
    decreases |Preorder(f)|, 0
  {
    if f.Cons? && nests(p, f.node) {
      SplitPreorder(f, FinalizeNode(nests, f.node, f.kids, f.rest));
      FinalizeNodeDeepFlat(nests, f.node, f.kids, f.rest);
      AbsorbFlatBelow(nests, p, FinalizeNode(nests, f.node, f.kids, f.rest).rest);
    }
  }

  lemma FinalizeListHead(nests: Nesting, f: Forest)
    ensures Head(FinalizeList(nests, f), null) == Head(f, null)
  {
  }

  /**
   * Every entry that is a sibling after a list has been finalized was one before, and took its place
   * among the siblings behind it by the rule above.
   */
  lemma {:induction false} FinalizeListPlaces(nests: Nesting, f: Forest, h: Forest) returns (g: Forest, rest: Forest)
    requires h.Cons? && Suffix(h, FinalizeList(nests, f))
    ensures Suffix(g, f) && g.Cons? && g.node == h.node && Placed(nests, h.node, g.kids, g.rest, Split(h.kids, rest))
    ensures Head(h.rest, null) == Head(rest, null) && Suffix(rest, f)
    decreases |Preorder(f)|
  {
    var s := FinalizeNode(nests, f.node, f.kids, f.rest);
    SplitPreorder(f, s);
    FinalizeNodeRest(nests, f.node, f.kids, f.rest);
    if h == FinalizeList(nests, f) {
      g, rest := f, s.rest;
      FinalizeListHead(nests, s.rest);
      FinalizeNodePlaces(nests, f.node, f.kids, f.rest);
    } else {
      g, rest := FinalizeListPlaces(nests, s.rest, h);
      SuffixTrans(g, s.rest, f.rest);
      SuffixTrans(rest, s.rest, f.rest);
    }
  }
}

module KconfMenu {
  import opened KconfForest

  /**
   * The pointers of these siblings and everything below them spell out the forest; `tail` is what the
   * last sibling's next pointer holds.
   */
  ghost predicate Linked(f: Forest, parent: Menu?, tail: Menu?)
    reads Nodes(f)
  {
    f.Cons? ==>
      f.node in Nodes(f) && Nodes(f.kids) <= Nodes(f) && Nodes(f.rest) <= Nodes(f) &&
      f.node.list == Head(f.kids, null) && f.node.next == Head(f.rest, tail) && f.node.parent == parent &&
      Linked(f.kids, f.node, null) && Linked(f.rest, parent, tail)
  }

  lemma {:induction false} NodesAppend(f: Forest, g: Forest)
    ensures Nodes(Append(f, g)) == Nodes(f) + Nodes(g)
  {
    if f.Cons? {
      NodesAppend(f.rest, g);
    }
  }

  lemma {:induction false} LinkedAppend(f: Forest, g: Forest, parent: Menu?, tail: Menu?)
    ensures Linked(Append(f, g), parent, tail) <==> Linked(f, parent, Head(g, tail)) && Linked(g, parent, tail)
  {
    if f.Cons? {
      LinkedAppend(f.rest, g, parent, tail);
    }
  }

  /** No node occurs twice. */
  ghost predicate Distinct(f: Forest) {
    f.Cons? ==>
      f.node !in Nodes(f.kids) && f.node !in Nodes(f.rest) && Nodes(f.kids) !! Nodes(f.rest) &&
      Distinct(f.kids) && Distinct(f.rest)
  }

  lemma {:induction false} DistinctAppend(f: Forest, g: Forest)
    ensures Distinct(Append(f, g)) <==> Distinct(f) && Distinct(g) && Nodes(f) !! Nodes(g)
  {
    if f.Cons? {
      DistinctAppend(f.rest, g);
      NodesAppend(f.rest, g);
    }
  }

  /** The first entry of a stretch, on its own. */
  function One(f: Forest): Forest
    requires f.Cons?
  {
    Cons(f.node, f.kids, Nil)
  }

  /** Give the first entry of a stretch a new parent. */
  method SetParent(m: Menu, parent: Menu, ghost f: Forest, ghost was: Menu?)
    requires f.Cons? && m == f.node && Linked(f, was, null) && Distinct(f)
    modifies m`parent
    ensures m.parent == parent && Linked(One(f), parent, Head(f.rest, null)) && Linked(f.rest, was, null)
  {
    m.parent := parent;
  }

  /** Halfway through a list of children: those up to the first of `end` already have the new parent. */
  ghost predicate Adopted(init: Forest, end: Forest, parent: Menu, was: Menu)
    reads Nodes(init) + Nodes(end)
  {
    end.Cons? && Distinct(init) && Distinct(end) && Nodes(init) !! Nodes(end) &&
    Linked(init, parent, end.node) && Linked(One(end), parent, Head(end.rest, null)) && Linked(end.rest, was, null)
  }

  lemma Shift(init: Forest, end: Forest)
    requires end.Cons? && Distinct(init) && Distinct(end) && Nodes(init) !! Nodes(end)
    ensures Append(Append(init, One(end)), end.rest) == Append(init, end)
    ensures Nodes(Append(init, One(end))) == Nodes(init) + {end.node} + Nodes(end.kids)
    ensures Distinct(Append(init, One(end))) && Nodes(Append(init, One(end))) !! Nodes(end.rest)
  {
    AppendAssociates(init, One(end), end.rest);
    NodesAppend(init, One(end));
    DistinctAppend(init, One(end));
  }

  /**
   * Move on to the next child and give it the new parent. Here and below, the ghost set `all` contains
   * the nodes of the whole tree: being a parameter, it holds allocated nodes only.
   */
  method AdoptNext(ghost all: set<Menu>, m: Menu, parent: Menu, was: Menu, ghost init: Forest, ghost end: Forest)
    requires Nodes(init) + Nodes(end) <= all
    requires Adopted(init, end, parent, was) && end.rest.Cons? && m == end.rest.node
    modifies m`parent
    ensures Adopted(Append(init, One(end)), end.rest, parent, was)
  {
    Shift(init, end);
    LinkedAppend(init, One(end), parent, m);
    SetParent(m, parent, end.rest, was);
  }

  /** Give all children of `menu` the parent `parent` and find the last. */
  method Reparent(ghost all: set<Menu>, menu: Menu, parent: Menu, ghost kids: Forest)
    returns (last: Menu, ghost init: Forest, ghost end: Forest)
    requires Nodes(kids) <= all
    requires kids.Cons? && menu.list == kids.node && Linked(kids, menu, null) && Distinct(kids)
    modifies Nodes(kids)`parent
    ensures end.Cons? && end.rest.Nil? && last == end.node && Append(init, end) == kids
    ensures Adopted(init, end, parent, menu)
  {
    last, init, end := menu.list, Nil, kids;
    SetParent(last, parent, end, menu);
    while last.next != null
      invariant end.Cons? && last == end.node && Append(init, end) == kids
      invariant Adopted(init, end, parent, menu)
      decreases end
    {
      Shift(init, end);
      NodesAppend(init, end);
      AdoptNext(all, last.next, parent, menu, init, end);
      last, init, end := last.next, Append(init, One(end)), end.rest;
    }
  }

  /** Chain `rest` behind the last entry of a stretch. */
  method LinkLast(ghost all: set<Menu>, last: Menu, next: Menu?, ghost init: Forest, ghost end: Forest, parent: Menu?)
    requires Nodes(init) + Nodes(end) <= all && end.Cons? && end.rest.Nil? && last == end.node
    requires Distinct(end) && Nodes(init) !! Nodes(end)
    requires Linked(init, parent, last) && last.list == Head(end.kids, null) && last.parent == parent
    requires Linked(end.kids, last, null)
    modifies last`next
    ensures last.next == next && Linked(Append(init, end), parent, next)
  {
    last.next := next;
    LinkedAppend(init, end, parent, next);
  }

  /** Lift the children of `menu` to its own level, right behind it. */
  method Hoist(ghost all: set<Menu>, menu: Menu, parent: Menu, ghost kids: Forest, ghost rest: Forest)
    requires {menu} + Nodes(kids) + Nodes(rest) <= all
    requires kids.Cons? && Distinct(Cons(menu, kids, rest)) && Linked(Cons(menu, kids, rest), parent, null)
    modifies menu`list, menu`next, Nodes(kids)`parent, Nodes(kids)`next
    ensures Linked(Cons(menu, Nil, Append(kids, rest)), parent, null)
  {
    var last;
    ghost var init, end;
    last, init, end := Reparent(all, menu, parent, kids);
    NodesAppend(init, end);
    LinkLast(all, last, menu.next, init, end, parent);
    menu.next := menu.list;
    menu.list := null;
    LinkedAppend(kids, rest, parent, null);
    NodesAppend(kids, rest);
  }

  /** Partway through a list of siblings: some entries done, below one parent, the rest below another. */
  ghost predicate Partway(done: Forest, here: Forest, doneParent: Menu?, parent: Menu?)
    reads Nodes(done) + Nodes(here)
  {
    Linked(done, doneParent, Head(here, null)) && Linked(here, parent, null) &&
    Distinct(done) && Distinct(here) && Nodes(done) !! Nodes(here)
  }

  ghost predicate Midway(done: Forest, here: Forest, parent: Menu?)
    reads Nodes(done) + Nodes(here)
  {
    Partway(done, here, parent, parent)
  }

  /** The entry at the head of the remaining siblings is done. */
  lemma Advance(done: Forest, here: Forest, parent: Menu?)
    requires here.Cons? && Midway(done, here, parent)
    ensures Midway(Append(done, One(here)), here.rest, parent)
    ensures Nodes(Append(done, One(here))) + Nodes(here.rest) == Nodes(done) + Nodes(here)
  {
    Shift(done, here);
    LinkedAppend(done, One(here), parent, Head(here.rest, null));
  }

  /** What is still to come can be put behind the entry just done. */
  lemma AdvanceAppend(done: Forest, here: Forest, g: Forest)
    requires here.Cons?
    ensures Append(Append(done, One(here)), g) == Append(done, Cons(here.node, here.kids, g))
  {
    AppendAssociates(done, One(here), g);
  }

  /** Dissolve one entry if it has children and no prompt. */
  method FlattenOne(ghost all: set<Menu>, menu: Menu, parent: Menu, ghost done: Forest, ghost here: Forest)
    returns (ghost there: Forest)
    requires Nodes(done) + Nodes(here) <= all && here.Cons? && menu == here.node && Midway(done, here, parent)
    modifies Nodes(here)
    ensures Midway(done, there, parent) && Nodes(there) == Nodes(here)
    ensures there.Cons? && there.node == menu && Flatten(here) == Cons(menu, there.kids, Flatten(there.rest))
    ensures Preorder(there) == Preorder(here)
  {
    there := here;
    if menu.list != null && !menu.prompted {
      there := Cons(menu, Nil, Append(here.kids, here.rest));
      Hoisted(here, there);
      Hoist(all, menu, parent, here.kids, here.rest);
    }
  }

  lemma Hoisted(here: Forest, there: Forest)
    requires here.Cons? && here.kids.Cons? && !here.node.prompted && Distinct(here)
    requires there == Cons(here.node, Nil, Append(here.kids, here.rest))
    ensures Nodes(there) == Nodes(here) && Distinct(there) && Preorder(there) == Preorder(here)
    ensures Flatten(here) == Cons(here.node, Nil, Flatten(there.rest))
  {
    DistinctAppend(here.kids, here.rest);
    NodesAppend(here.kids, here.rest);
    HoistedOrder([here.node], Preorder(here.kids), Preorder(here.rest));
  }

  lemma HoistedOrder(m: seq<Menu>, kids: seq<Menu>, rest: seq<Menu>)
    ensures m + [] + (kids + rest) == m + kids + rest
  {
  }

  /** Dissolve the children of `parent` that have no prompt. */
  method FlattenChildren(ghost all: set<Menu>, parent: Menu, ghost kids: Forest)
    requires Nodes(kids) <= all && parent.list == Head(kids, null) && parent !in Nodes(kids)
    requires Linked(kids, parent, null) && Distinct(kids)
    modifies Nodes(kids)
    ensures Linked(Flatten(kids), parent, null)
  {
    var menu := parent.list;
    ghost var done, here := Nil, kids;
    while menu != null
      invariant menu == Head(here, null) && Midway(done, here, parent)
      invariant Nodes(done) + Nodes(here) == Nodes(kids)
      invariant Append(done, Flatten(here)) == Flatten(kids)
      decreases |Preorder(here)|
    {
      here := FlattenOne(all, menu, parent, done, here);
      Advance(done, here, parent);
      AdvanceAppend(done, here, Flatten(here.rest));
      menu, done, here := menu.next, Append(done, One(here)), here.rest;
    }
  }

  ghost function Elements(s: seq<Menu>): set<Menu> {
    set m | m in s
  }

  lemma ElementsConcat(s: seq<Menu>, t: seq<Menu>)
    ensures Elements(s + t) == Elements(s) + Elements(t)
  {
  }

  lemma {:induction false} NodesPreorder(f: Forest)
    ensures Nodes(f) == Elements(Preorder(f))
  {
    if f.Cons? {
      NodesPreorder(f.kids);
      NodesPreorder(f.rest);
      ElementsConcat([f.node] + Preorder(f.kids), Preorder(f.rest));
      ElementsConcat([f.node], Preorder(f.kids));
      assert Elements([f.node]) == {f.node};
    }
  }

  ghost predicate NoDup(s: seq<Menu>) {
    s != [] ==> s[0] !in Elements(s[1..]) && NoDup(s[1..])
  }

  lemma {:induction false} NoDupConcat(s: seq<Menu>, t: seq<Menu>)
    ensures NoDup(s + t) <==> NoDup(s) && NoDup(t) && Elements(s) !! Elements(t)
  {
    if s == [] {
      assert s + t == t;
    } else {
      assert (s + t)[1..] == s[1..] + t;
      NoDupConcat(s[1..], t);
      ElementsConcat(s[1..], t);
      assert s == [s[0]] + s[1..];
      ElementsConcat([s[0]], s[1..]);
      assert Elements([s[0]]) == {s[0]};
    }
  }

  /** The nodes are distinct exactly when the preorder names no node twice. */
  lemma {:induction false} DistinctPreorder(f: Forest)
    ensures Distinct(f) <==> NoDup(Preorder(f))
  {
    if f.Cons? {
      DistinctPreorder(f.kids);
      DistinctPreorder(f.rest);
      NodesPreorder(f.kids);
      NodesPreorder(f.rest);
      NoDupCons(f.node, Preorder(f.kids), Preorder(f.rest));
    }
  }

  lemma NoDupCons(m: Menu, s: seq<Menu>, t: seq<Menu>)
    ensures NoDup([m] + s + t) <==>
      m !in Elements(s) && m !in Elements(t) && NoDup(s) && NoDup(t) && Elements(s) !! Elements(t)
  {
    assert ([m] + s + t)[1..] == s + t;
    NoDupConcat(s, t);
    ElementsConcat(s, t);
  }

  /** Reshaping without touching the preorder keeps the nodes, and keeps them distinct. */
  lemma SamePreorder(f: Forest, g: Forest)
    requires Preorder(f) == Preorder(g)
    ensures Nodes(f) == Nodes(g) && (Distinct(f) <==> Distinct(g))
  {
    DistinctPreorder(f);
    DistinctPreorder(g);
    NodesPreorder(f);
    NodesPreorder(g);
  }

  /** Finalizing the head of the remaining siblings keeps the walk of them well linked. */
  lemma Finalized(done: Forest, here: Forest, s: Split)
    requires here.Cons? && Distinct(done) && Distinct(here) && Nodes(done) !! Nodes(here)
    requires Preorder(s.kids) + Preorder(s.rest) == Preorder(here.kids) + Preorder(here.rest)
    ensures var there := Cons(here.node, s.kids, s.rest);
      Distinct(there) && Nodes(there) == Nodes(here) && Nodes(done) !! Nodes(there) &&
      |Preorder(s.rest)| < |Preorder(here)|
  {
    SplitPreorder(here, s);
    SamePreorder(here, Cons(here.node, s.kids, s.rest));
  }

  /** Flattening the children leaves the siblings as they are. */
  method FlattenBelow(ghost all: set<Menu>, p: Menu, ghost kids: Forest, ghost rest: Forest, ghost up: Menu?)
    requires Nodes(kids) + Nodes(rest) <= all
    requires Distinct(Cons(p, kids, rest)) && Linked(Cons(p, kids, rest), up, null)
    modifies Nodes(kids)
    ensures Linked(Cons(p, Flatten(kids), rest), up, null)
  {
    FlattenChildren(all, p, kids);
  }

  /** Finalize an entry: finalize its children or take in the siblings that depend on it, then flatten. */
  method Finalize(ghost all: set<Menu>, nests: Nesting, p: Menu, ghost kids: Forest, ghost rest: Forest, ghost up: Menu?)
    requires {p} + Nodes(kids) + Nodes(rest) <= all
    requires Distinct(Cons(p, kids, rest)) && Linked(Cons(p, kids, rest), up, null)
    modifies {p} + Nodes(kids) + Nodes(rest)
    ensures var s := FinalizeNode(nests, p, kids, rest); Linked(Cons(p, s.kids, s.rest), up, null)
    decreases |Preorder(kids)| + |Preorder(rest)|, 3
  {
    if p.list != null {
      FinalizeChildren(all, nests, p, kids);
      ghost var k := FinalizeList(nests, kids);
      SamePreorder(kids, k);
      FlattenBelow(all, p, k, rest, up);
    } else if p.hasSym {
      AbsorbSiblings(all, nests, p, rest, up);
      ghost var s := Absorb(nests, p, rest);
      Absorbed(p, rest, s);
      FlattenBelow(all, p, s.kids, s.rest, up);
    }
  }

  /**
   * Where the pointers of an entry lead once it has been finalized: to the children it had, or else to
   * the sibling behind it if that nests below it; the next sibling left does not nest below it.
   */
  lemma FinalizedPointers(nests: Nesting, p: Menu, kids: Forest, rest: Forest, up: Menu?)
    requires var s := FinalizeNode(nests, p, kids, rest); Linked(Cons(p, s.kids, s.rest), up, null)
    ensures p.parent == up
    ensures kids.Cons? ==> p.list == kids.node && kids.node.parent == p && p.next == Head(rest, null)
    ensures kids.Nil? && (!p.hasSym || rest.Nil? || !nests(p, rest.node)) ==> p.list == null && p.next == Head(rest, null)
    ensures kids.Nil? && p.hasSym && rest.Cons? && nests(p, rest.node) ==> p.list == rest.node && rest.node.parent == p
    ensures kids.Nil? && p.hasSym && p.next != null ==> !nests(p, p.next) && p.next.parent == up
  {
    FinalizeNodePlaces(nests, p, kids, rest);
  }

  /** The siblings taken in and those left are separate. */
  lemma Absorbed(p: Menu, rest: Forest, s: Split)
    requires Distinct(rest) && p !in Nodes(rest) && Preorder(s.kids) + Preorder(s.rest) == Preorder(rest)
    ensures Nodes(s.kids) + Nodes(s.rest) == Nodes(rest) && Distinct(Cons(p, s.kids, s.rest))
  {
    var f := Append(s.kids, s.rest);
    SamePreorder(f, rest);
    NodesAppend(s.kids, s.rest);
    DistinctAppend(s.kids, s.rest);
  }

  /** Finalize one dependent sibling and hang it below `p`. */
  method TakeIn(ghost all: set<Menu>, nests: Nesting, p: Menu, menu: Menu, ghost done: Forest, ghost here: Forest, ghost up: Menu?)
    returns (ghost there: Forest)
    requires Nodes(done) + Nodes(here) <= all && here.Cons? && menu == here.node && Partway(done, here, p, up)
    modifies Nodes(here)
    ensures var s := FinalizeNode(nests, menu, here.kids, here.rest); there == Cons(menu, s.kids, s.rest)
    ensures Partway(Append(done, One(there)), there.rest, p, up)
    ensures Nodes(Append(done, One(there))) + Nodes(there.rest) == Nodes(done) + Nodes(here)
    ensures |Preorder(there.rest)| < |Preorder(here)|
    ensures menu.next == Head(there.rest, null)
    decreases |Preorder(here)|, 0
  {
    ghost var s := FinalizeNode(nests, menu, here.kids, here.rest);
    Finalized(done, here, s);
    Finalize(all, nests, menu, here.kids, here.rest, up);
    there := Cons(menu, s.kids, s.rest);
    SetParent(menu, p, there, up);
    Shift(done, there);
    LinkedAppend(done, One(there), p, Head(there.rest, null));
  }

  /** Taking in one more sibling, then the rest, is taking them all in. */
  lemma AbsorbMore(nests: Nesting, p: Menu, done: Forest, here: Forest, there: Forest, goal: Split)
    requires here.Cons? && nests(p, here.node)
    requires goal == Split(Append(done, Absorb(nests, p, here).kids), Absorb(nests, p, here).rest)
    requires var s := FinalizeNode(nests, here.node, here.kids, here.rest); there == Cons(here.node, s.kids, s.rest)
    ensures var t := Absorb(nests, p, there.rest); goal == Split(Append(Append(done, One(there)), t.kids), t.rest)
  {
    AdvanceAppend(done, there, Absorb(nests, p, there.rest).kids);
  }

  /** The loop over the siblings right behind `p` that depend on it. */
  method TakeDependents(ghost all: set<Menu>, nests: Nesting, p: Menu, ghost rest: Forest, ghost up: Menu?)
    returns (last: Menu?, ghost init: Forest, ghost end: Forest)
    requires Nodes(rest) <= all && p !in Nodes(rest) && p.next == Head(rest, null)
    requires Linked(rest, up, null) && Distinct(rest)
    modifies Nodes(rest)
    ensures var s := Absorb(nests, p, rest);
      Append(init, end) == s.kids && Linked(s.kids, p, Head(s.rest, null)) && Linked(s.rest, up, null)
    ensures if last == null then init.Nil? && end.Nil? else end.Cons? && end.rest.Nil? && last == end.node
    decreases |Preorder(rest)|, 1
  {
    var menu := p.next;
    last := null;
    ghost var done, here, goal := Nil, rest, Absorb(nests, p, rest);
    init, end := Nil, Nil;
    while menu != null && nests(p, menu)
      invariant menu == Head(here, null) && Partway(done, here, p, up)
      invariant Nodes(done) + Nodes(here) == Nodes(rest) && |Preorder(here)| <= |Preorder(rest)|
      invariant goal == Split(Append(done, Absorb(nests, p, here).kids), Absorb(nests, p, here).rest)
      invariant done == Append(init, end)
      invariant if last == null then init.Nil? && end.Nil? else end.Cons? && end.rest.Nil? && last == end.node
      decreases |Preorder(here)|
    {
      ghost var there := TakeIn(all, nests, p, menu, done, here, up);
      AbsorbMore(nests, p, done, here, there, goal);
      init, end := done, One(there);
      last, menu, done, here := menu, menu.next, Append(done, One(there)), there.rest;
    }
  }

  /** Turn the siblings right behind `p` that depend on it into its children. */
  method AbsorbSiblings(ghost all: set<Menu>, nests: Nesting, p: Menu, ghost rest: Forest, ghost up: Menu?)
    requires Nodes(rest) <= all && p !in Nodes(rest) && p.list == null && p.next == Head(rest, null)
    requires Linked(rest, up, null) && Distinct(rest)
    modifies p`list, p`next, Nodes(rest)
    ensures var s := Absorb(nests, p, rest);
      p.list == Head(s.kids, null) && p.next == Head(s.rest, null) && Linked(s.kids, p, null) && Linked(s.rest, up, null)
    decreases |Preorder(rest)|, 2
  {
    ghost var s := Absorb(nests, p, rest);
    var last;
    ghost var init, end;
    last, init, end := TakeDependents(all, nests, p, rest, up);
    Absorbed(p, rest, s);
    if last != null {
      NodesAppend(init, end);
      AbsorbHead(nests, p, rest);
      Unchain(all, p, last, init, end, s.rest);
    }
  }

  /** The first entry taken in, if any, is the one right behind. */
  lemma AbsorbHead(nests: Nesting, p: Menu, rest: Forest)
    ensures var s := Absorb(nests, p, rest); Head(s.kids, Head(s.rest, null)) == Head(rest, null)
  {
  }

  /** Cut the list behind the last entry taken in. */
  method Unchain(ghost all: set<Menu>, p: Menu, last: Menu, ghost init: Forest, ghost end: Forest, ghost here: Forest)
    requires Nodes(Append(init, end)) <= all && p !in Nodes(Append(init, end))
    requires end.Cons? && end.rest.Nil? && last == end.node && Distinct(Append(init, end))
    requires Linked(Append(init, end), p, Head(here, null)) && p.next == Head(Append(init, end), null)
    modifies p`list, p`next, last`next
    ensures p.list == Head(Append(init, end), null) && p.next == Head(here, null)
    ensures Linked(Append(init, end), p, null)
  {
    NodesAppend(init, end);
    DistinctAppend(init, end);
    LinkedAppend(init, end, p, Head(here, null));
    p.list := p.next;
    p.next := last.next;
    LinkLast(all, last, null, init, end, p);
  }

  method FinalizeChildren(ghost all: set<Menu>, nests: Nesting, p: Menu, ghost kids: Forest)
    requires Nodes(kids) <= all && p !in Nodes(kids) && p.list == Head(kids, null)
    requires Linked(kids, p, null) && Distinct(kids)
    modifies Nodes(kids)
    ensures Linked(FinalizeList(nests, kids), p, null)
    decreases |Preorder(kids)|, 0
  {
    var menu := p.list;
    ghost var done, here := Nil, kids;
    while menu != null
      invariant menu == Head(here, null) && Midway(done, here, p)
      invariant Nodes(done) + Nodes(here) == Nodes(kids) && |Preorder(here)| <= |Preorder(kids)|
      invariant Append(done, FinalizeList(nests, here)) == FinalizeList(nests, kids)
      decreases |Preorder(here)|
    {
      ghost var s := FinalizeNode(nests, menu, here.kids, here.rest);
      Finalized(done, here, s);
      Finalize(all, nests, menu, here.kids, here.rest, p);
      here := Cons(menu, s.kids, s.rest);
      Advance(done, here, p);
      AdvanceAppend(done, here, FinalizeList(nests, here.rest));
      menu, done, here := menu.next, Append(done, One(here)), here.rest;
    }
  }

  /** Where a pointer walk stands: the entries above it and the siblings still to come at each level. */
  datatype Context = Top(root: Menu) | Below(node: Menu, rest: Forest, up: Context)

  ghost function Parent(c: Context): Menu {
    match c case Top(root) => root case Below(m, _, _) => m
  }

  function Pending(c: Context): seq<Menu> {
    match c case Top(_) => [] case Below(_, rest, up) => Preorder(rest) + Pending(up)
  }

  ghost function Reach(c: Context): set<Menu> {
    match c case Top(root) => {root} case Below(m, rest, up) => {m} + Nodes(rest) + Reach(up)
  }

  /** The pointers above the walk: the root is alone, every other entry knows its sibling and parent. */
  ghost predicate Climbable(c: Context)
    reads Reach(c)
  {
    match c
    case Top(root) => root.next == null && root.parent == null
    case Below(m, rest, up) =>
      m.next == Head(rest, null) && m.parent == Parent(up) && Linked(rest, Parent(up), null) && Climbable(up)
  }

  /** The step of the walk when an entry has neither children nor a next sibling. */
  method Climb(from: Menu, ghost c: Context) returns (menu: Menu?, ghost rest: Forest, ghost up: Context)
    requires Climbable(c) && from.parent == Parent(c)
    ensures Climbable(up) && menu == Head(rest, null) && Linked(rest, Parent(up), null)
    ensures Preorder(rest) + Pending(up) == Pending(c)
    ensures menu == null ==> up.Top?
  {
    menu, rest, up := from.parent, Nil, c;
    while menu != null
      invariant Climbable(up) && Preorder(rest) + Pending(up) == Pending(c) && rest.Nil?
      invariant menu == Parent(up) || (menu == null && up.Top?)
      decreases up, menu != null
    {
      if menu.next != null {
        rest, up := up.rest, up.up;
        menu := menu.next;
        return;
      }
      menu := menu.parent;
      if up.Below? {
        assert Preorder(up.rest) + Pending(up.up) == Pending(up.up);
        up := up.up;
      }
    }
  }

  /** An entry, then what is below it, then what is still to come. */
  lemma Unvisited(f: Forest, up: Context)
    requires f.Cons?
    ensures Preorder(f) + Pending(up) == [f.node] + (Preorder(f.kids) + Pending(Below(f.node, f.rest, up)))
    ensures f.kids.Nil? ==> Preorder(f) + Pending(up) == [f.node] + (Preorder(f.rest) + Pending(up))
    ensures f.kids.Nil? && f.rest.Nil? ==> Preorder(f) + Pending(up) == [f.node] + Pending(up)
  {
    var below := Preorder(f.rest) + Pending(up);
    Regroup([f.node], Preorder(f.kids), Preorder(f.rest), Pending(up));
    assert f.kids.Nil? ==> Preorder(f.kids) + below == below;
    assert f.rest.Nil? ==> below == Pending(up);
  }

  lemma Regroup(a: seq<Menu>, b: seq<Menu>, c: seq<Menu>, d: seq<Menu>)
    ensures a + b + c + d == a + (b + (c + d))
  {
  }

  lemma MoveOne(visited: seq<Menu>, m: Menu, todo: seq<Menu>)
    ensures visited + ([m] + todo) == visited + [m] + todo
  {
  }

  /** One step of the walk: down, else across, else up and across. */
  method Step(menu: Menu, ghost here: Forest, ghost up: Context)
    returns (m: Menu?, ghost there: Forest, ghost above: Context)
    requires Climbable(up) && Linked(here, Parent(up), null) && here.Cons? && menu == here.node
    ensures Climbable(above) && Linked(there, Parent(above), null) && m == Head(there, null)
    ensures m == null ==> above.Top?
    ensures Preorder(here) + Pending(up) == [menu] + (Preorder(there) + Pending(above))
  {
    Unvisited(here, up);
    if menu.list != null {
      return menu.list, here.kids, Below(menu, here.rest, up);
    }
    if menu.next != null {
      return menu.next, here.rest, up;
    }
    m, there, above := Climb(menu, up);
  }

  /** The walk of the whole tree below `root` visits the entries in preorder. */
  method Walk(root: Menu, ghost f: Forest) returns (visited: seq<Menu>)
    requires Linked(f, root, null) && root.list == Head(f, null) && root.next == null && root.parent == null
    ensures visited == Preorder(f)
  {
    visited := [];
    var menu := root.list;
    ghost var here, up, todo := f, Top(root), Preorder(f);
    assert Preorder(f) + Pending(up) == Preorder(f);
    while menu != null
      invariant Climbable(up) && Linked(here, Parent(up), null) && menu == Head(here, null)
      invariant menu == null ==> up.Top?
      invariant todo == Preorder(here) + Pending(up) && visited + todo == Preorder(f)
      decreases |todo|
    {
      ghost var m, before := menu, visited;
      visited := visited + [menu];
      menu, here, up := Step(menu, here, up);
      todo := Preorder(here) + Pending(up);
      MoveOne(before, m, todo);
    }
    assert todo == [];
  }

  /** After restructuring, writing the configuration visits every entry once, in the order declared. */
  method FinalizeThenWalk(ghost all: set<Menu>, nests: Nesting, root: Menu, ghost f: Forest)
    returns (visited: seq<Menu>)
    requires {root} + Nodes(f) <= all && Distinct(Cons(root, f, Nil)) && Linked(Cons(root, f, Nil), null, null)
    modifies {root} + Nodes(f)
    ensures visited == Preorder(f) && NoDup(visited)
  {
    Finalize(all, nests, root, f, Nil, null);
    ghost var s := FinalizeNode(nests, root, f, Nil);
    visited := WalkAlone(root, f, s);
    DistinctPreorder(f);
  }

  /** The root has no siblings to take in, so all entries are below it. */
  method WalkAlone(root: Menu, ghost f: Forest, ghost s: Split) returns (visited: seq<Menu>)
    requires s.rest.Nil? && Preorder(s.kids) + Preorder(s.rest) == Preorder(f) + Preorder(Nil)
    requires Linked(Cons(root, s.kids, s.rest), null, null)
    ensures visited == Preorder(f)
  {
    visited := Walk(root, s.kids);
    assert Preorder(f) + Preorder(Nil) == Preorder(f);
    assert Preorder(s.kids) + Preorder(s.rest) == Preorder(s.kids);
  }
}
