/**
 Red-black trees, as `ldns` builds them, and what a search in one of them means for the sequence of its items.
 */
module RedBlack {
  import opened Prelude
  import opened TaskModel
  import opened OrderedTree
  import opened Wildcard

  datatype Tree = Leaf | Node(red: bool, left: Tree, item: Ref, right: Tree)

  function Items(t: Tree): seq<Ref> {
    if t.Leaf? then [] else Items(t.left) + [t.item] + Items(t.right)
  }

  predicate IsRed(t: Tree) { t.Node? && t.red }

  function BlackHeight(t: Tree): nat {
    if t.Leaf? then 0 else BlackHeight(t.left) + if t.red then 0 else 1
  }

  /** The same number of black nodes on every path, and no red node below a red one. */
  predicate Balanced(t: Tree) {
    t.Node? ==>
      && Balanced(t.left) && Balanced(t.right) && BlackHeight(t.left) == BlackHeight(t.right)
      && (t.red ==> !IsRed(t.left) && !IsRed(t.right))
  }

  predicate IsRedBlack(t: Tree) { Balanced(t) && !IsRed(t) }

  /** `ldns_rbtree_search`. */
  function Find(k: Index, mem: Memory, t: Tree, key: View): Option<Ref> {
    if t.Leaf? || t.item !in mem then None
    else
      var c := Compare(k, key, mem[t.item]);
      if c == 0 then Some(t.item) else Find(k, mem, if c < 0 then t.left else t.right, key)
  }

  /** The item in front of a subtree sends the search right, the item behind it left. */
  ghost predicate Between(k: Index, mem: Memory, key: View, a: seq<Ref>, b: seq<Ref>) {
    && (a != [] ==> a[|a| - 1] in mem && Compare(k, key, mem[a[|a| - 1]]) > 0)
    && (b != [] ==> b[0] in mem && Compare(k, key, mem[b[0]]) < 0)
  }

  ghost predicate MayMiss(k: Index, mem: Memory, s: seq<Ref>, key: View) {
    exists pos :: Misses(k, mem, s, key, pos)
  }

  lemma MissBetween(k: Index, mem: Memory, key: View, a: seq<Ref>, b: seq<Ref>)
    requires Between(k, mem, key, a, b)
    ensures MayMiss(k, mem, a + b, key)
  {
    hide TaskModel.Compare;
    assert Misses(k, mem, a + b, key, |a|);
  }

  /** A search that fails in a subtree, with the items `a` in front of it and `b` behind it. */
  lemma {:induction false} MissInside(k: Index, mem: Memory, t: Tree, key: View, a: seq<Ref>, b: seq<Ref>)
    requires (forall p :: p in Items(t) ==> p in mem) && Between(k, mem, key, a, b) && Find(k, mem, t, key).None?
    ensures MayMiss(k, mem, a + Items(t) + b, key)
  {
    hide TaskModel.Compare, MayMiss;
    if t.Leaf? {
      assert a + Items(t) + b == a + b;
      MissBetween(k, mem, key, a, b);
    } else {
      assert t.item in Items(t);
      if Compare(k, key, mem[t.item]) < 0 {
        var b' := [t.item] + Items(t.right) + b;
        MissInside(k, mem, t.left, key, a, b');
        assert a + Items(t.left) + b' == a + Items(t) + b;
      } else {
        var a' := a + Items(t.left) + [t.item];
        MissInside(k, mem, t.right, key, a', b);
        assert a' + Items(t.right) + b == a + Items(t) + b;
      }
    }
  }

  lemma {:induction false} FindHits(k: Index, mem: Memory, t: Tree, key: View)
    requires Find(k, mem, t, key).Some?
    ensures var p := Find(k, mem, t, key).value; p in Items(t) && p in mem && Compare(k, key, mem[p]) == 0
  {
    hide TaskModel.Compare;
    if Compare(k, key, mem[t.item]) < 0 {
      FindHits(k, mem, t.left, key);
    } else if Compare(k, key, mem[t.item]) > 0 {
      FindHits(k, mem, t.right, key);
    }
  }

  /** Whatever the tree, a search ends as one on the sequence of its items can. */
  lemma FindIsSearch(k: Index, mem: Memory, t: Tree, key: View)
    requires forall p :: p in Items(t) ==> p in mem
    ensures Find(k, mem, t, key).Some? ==>
              var p := Find(k, mem, t, key).value; p in Items(t) && p in mem && Compare(k, key, mem[p]) == 0
    ensures Find(k, mem, t, key).None? ==> MayMiss(k, mem, Items(t), key)
  {
    if Find(k, mem, t, key).Some? {
      FindHits(k, mem, t, key);
    } else {
      MissInside(k, mem, t, key, [], []);
      assert [] + Items(t) + [] == Items(t);
    }
  }

  // ----- removing by wildcard -----

  ghost predicate Lost(mem: Memory, s: seq<Ref>, key: View, t: Tree) {
    IsRedBlack(t) && Items(t) == s && Find(ByName, mem, t, key).None?
  }

  /** The loop of `schedule_unscheduletask` may end with the items `s'`, in some red-black tree. */
  ghost predicate Remains(mem: Memory, s: seq<Ref>, key: View, s': seq<Ref>) {
    Thinned(mem, s, key, s') && exists t :: Lost(mem, s', key, t)
  }

  ghost predicate Among(ids: iset<TTuple>, mem: Memory, s: seq<Ref>) {
    Ordered(ByName, mem, s) && forall p :: p in s && p in mem ==> mem[p].id in ids
  }

  /** No two of the tuples that may be scheduled stand in each other's way. */
  ghost predicate Unblocked(ids: iset<TTuple>, owner: string, typ: string) {
    typ == WHATEVER ==>
      forall x, y :: x in ids && y in ids && x.typ != WHATEVER && y.typ != WHATEVER ==> !Blocks(owner, x, y)
  }

  lemma UnblockedLeavesNone(ids: iset<TTuple>, owner: string, typ: string, mem: Memory, s: seq<Ref>, s': seq<Ref>)
    requires Unblocked(ids, owner, typ) && Among(ids, mem, s) && Remains(mem, s, SearchKey(owner, typ), s')
    ensures NoMatch(mem, s', SearchKey(owner, typ))
  {
    var key := SearchKey(owner, typ);
    var t :| Lost(mem, s', key, t);
    forall p | p in s' ensures p in mem && mem[p].id in ids && mem[p].id.typ != WHATEVER {
      assert Kept(ByName, mem, p);
    }
    FindIsSearch(ByName, mem, t, key);
    var pos :| Misses(ByName, mem, s', key, pos);
    MissLeavesNone(mem, s', owner, typ, pos);
  }

  /** Two tasks in a red-black tree of two nodes, with the one that stands in the way at the root. */
  lemma BlockedRoot(owner: string, x: TTuple, y: TTuple) returns (mem: Memory, s: seq<Ref>)
    requires Blocks(owner, x, y) && x.typ != WHATEVER && y.typ != WHATEVER
    ensures s == [0, 1] && 0 in mem && 1 in mem && mem[0].id == x && mem[1].id == y && Ordered(ByName, mem, s)
    ensures Remains(mem, s, SearchKey(owner, WHATEVER), s) && !NoMatch(mem, s, SearchKey(owner, WHATEVER))
  {
    var key, v := SearchKey(owner, WHATEVER), View(x, 0, None, None, None, None, 0);
    mem, s := map[0 := v, 1 := v.(id := y)], [0, 1];
    CompareIsLexicographic(ByName, mem[0], mem[1]);
    assert Precedes(ByName, mem, s, 0, 1);
    WrongWay(mem[0], mem[1], owner, WHATEVER);
    var t := if Compare(ByName, key, mem[0]) == 0 then Node(false, Node(true, Leaf, 0, Leaf), 1, Leaf)
             else Node(false, Leaf, 0, Node(true, Leaf, 1, Leaf));
    assert Lost(mem, s, key, t);
    assert Thins(mem, key, if Compare(ByName, key, mem[0]) == 0 then 0 else 1);
  }

  /**
   Whatever tasks among `ids` are scheduled and however the red-black tree is shaped, the loop of
   `schedule_unscheduletask` leaves no matching task, if and only if the type is given or no two of
   the tuples stand in each other's way.
   */
  lemma UnscheduleIsExact(ids: iset<TTuple>, owner: string, typ: string)
    ensures (forall mem, s, s' :: Among(ids, mem, s) && Remains(mem, s, SearchKey(owner, typ), s') ==>
               NoMatch(mem, s', SearchKey(owner, typ)))
            <==> Unblocked(ids, owner, typ)
  {
    hide Remains, NoMatch;
    if Unblocked(ids, owner, typ) {
      forall mem, s, s' | Among(ids, mem, s) && Remains(mem, s, SearchKey(owner, typ), s')
        ensures NoMatch(mem, s', SearchKey(owner, typ))
      {
        UnblockedLeavesNone(ids, owner, typ, mem, s, s');
      }
    } else {
      var x, y :| x in ids && y in ids && x.typ != WHATEVER && y.typ != WHATEVER && Blocks(owner, x, y);
      var mem, s := BlockedRoot(owner, x, y);
      assert Among(ids, mem, s);
    }
  }

  /** The zone's sign task of the signer and its enforce task: unscheduling `[any]` can leave the sign task. */
  lemma SignTaskIsLeft(owner: string) returns (mem: Memory, s: seq<Ref>)
    ensures s == [0, 1] && 0 in mem && 1 in mem && Ordered(ByName, mem, s)
    ensures mem[0].id == TTuple(owner, "[sign]", CLASS_SIGNER) &&
            mem[1].id == TTuple(owner, TYPE_ENFORCE, CLASS_ENFORCER)
    ensures Remains(mem, s, SearchKey(owner, WHATEVER), s) && !NoMatch(mem, s, SearchKey(owner, WHATEVER))
  {
    assert DiffersAt("[sign]", TYPE_ENFORCE, 0) && DiffersAt(CLASS_ENFORCER, CLASS_SIGNER, 0);
    assert "[sign]"[1] != WHATEVER[1];
    mem, s := BlockedRoot(owner, TTuple(owner, "[sign]", CLASS_SIGNER), TTuple(owner, TYPE_ENFORCE, CLASS_ENFORCER));
  }
}
