/**
 The search with an unspecified type (common/scheduler/task.c:168) in a tree ordered by type.
 */
module Wildcard {
  import opened Prelude
  import opened TaskModel
  import opened OrderedTree

  function SearchKey(owner: string, typ: string): View {
    View(TTuple(owner, typ, CLASS_SIGNER), WHENEVER, None, None, None, None, 0)
  }

  /** `x` sorts before `y`, one of them is a signer task, and the other one sends a search away from it. */
  ghost predicate Blocks(owner: string, x: TTuple, y: TTuple) {
    && x.owner == y.owner == owner && StrLess(x.typ, y.typ)
    && ((x.cls == CLASS_SIGNER && StrLess(y.cls, CLASS_SIGNER)) ||
        (y.cls == CLASS_SIGNER && StrLess(CLASS_SIGNER, x.cls)))
  }

  /** The type is given, or no task of the owner stands in the way of its signer tasks. */
  ghost predicate Clear(m: map<TTuple, View>, owner: string, typ: string) {
    typ == WHATEVER ==> forall x, y :: x in m && y in m ==> !Blocks(owner, x, y)
  }

  ghost predicate Thins(mem: Memory, key: View, p: Ref) {
    p in mem && Compare(ByName, key, mem[p]) == 0
  }

  /** `s'` is what remains of `s` after taking out some items that the key finds. */
  ghost predicate Thinned(mem: Memory, s: seq<Ref>, key: View, s': seq<Ref>) {
    && Ordered(ByName, mem, s')
    && (forall p :: p in s' ==> p in s)
    && (forall p {:trigger Thins(mem, key, p)} :: p in s && p !in s' ==> Thins(mem, key, p))
  }

  /** The loop of `schedule_unscheduletask` may end with `s'`, for some shape of the tree. */
  ghost predicate Residue(mem: Memory, s: seq<Ref>, key: View, s': seq<Ref>) {
    Thinned(mem, s, key, s') && exists pos :: Misses(ByName, mem, s', key, pos)
  }

  lemma FoundMatches(owner: string, typ: string, v: View)
    requires v.id.typ != WHATEVER
    ensures Compare(ByName, SearchKey(owner, typ), v) == 0 <==>
            v.id.owner == owner && v.id.cls == CLASS_SIGNER && (typ == WHATEVER || v.id.typ == typ)
  {
    StrCmpSign(owner, v.id.owner);
    StrCmpSign(typ, v.id.typ);
    StrCmpSign(CLASS_SIGNER, v.id.cls);
  }

  /**
   Two items in tree order, one of which the key finds: the other one sends the search the wrong way if and only if it
   blocks.
   */
  lemma WrongWay(x: View, y: View, owner: string, typ: string)
    requires x.id.typ != WHATEVER && y.id.typ != WHATEVER && Compare(ByName, x, y) < 0
    ensures typ == WHATEVER && Blocks(owner, x.id, y.id) <==>
            || (Compare(ByName, SearchKey(owner, typ), x) == 0 && Compare(ByName, SearchKey(owner, typ), y) > 0)
            || (Compare(ByName, SearchKey(owner, typ), y) == 0 && Compare(ByName, SearchKey(owner, typ), x) < 0)
  {
    StrCmpSign(x.id.owner, y.id.owner);
    StrCmpSign(owner, x.id.owner);
    StrCmpSign(owner, y.id.owner);
    StrCmpSign(x.id.typ, y.id.typ);
    StrCmpSign(typ, x.id.typ);
    StrCmpSign(typ, y.id.typ);
    StrCmpSign(x.id.cls, y.id.cls);
    StrCmpSign(CLASS_SIGNER, x.id.cls);
    StrCmpSign(CLASS_SIGNER, y.id.cls);
    StrCmpSign(x.id.cls, CLASS_SIGNER);
    StrCmpSign(y.id.cls, CLASS_SIGNER);
  }

  /** If nothing stands in the way, a search that ends without success has left no matching task behind. */
  lemma MissLeavesNone(mem: Memory, s: seq<Ref>, owner: string, typ: string, pos: nat)
    requires Ordered(ByName, mem, s) && Misses(ByName, mem, s, SearchKey(owner, typ), pos)
    requires ClearTree(mem, s, owner, typ)
    ensures NoMatch(mem, s, SearchKey(owner, typ))
  {
    forall p | p in s ensures !Thins(mem, SearchKey(owner, typ), p) {
      var i :| 0 <= i < |s| && s[i] == p;
      assert Kept(ByName, mem, p);
      if i < pos - 1 {
        assert Precedes(ByName, mem, s, i, pos - 1) && Kept(ByName, mem, s[pos - 1]);
        WrongWay(mem[p], mem[s[pos - 1]], owner, typ);
      } else if pos < i {
        assert Precedes(ByName, mem, s, pos, i) && Kept(ByName, mem, s[pos]);
        WrongWay(mem[s[pos]], mem[p], owner, typ);
      }
    }
  }

  /** The items of `s` without those in `drop`, still in order. */
  function Without(s: seq<Ref>, drop: set<Ref>): seq<Ref> {
    if s == [] then []
    else Without(s[..|s| - 1], drop) + (if s[|s| - 1] in drop then [] else [s[|s| - 1]])
  }

  lemma {:induction false} WithoutKeeps(mem: Memory, s: seq<Ref>, drop: set<Ref>)
    requires Ordered(ByName, mem, s)
    ensures Ordered(ByName, mem, Without(s, drop))
    ensures forall p :: p in Without(s, drop) <==> p in s && p !in drop
  {
    if s != [] {
      var n := |s| - 1;
      var init, last := s[..n], s[n];
      assert s == init + [last];
      forall i, j | 0 <= i < j < n ensures Precedes(ByName, mem, init, i, j) { assert Precedes(ByName, mem, s, i, j); }
      WithoutKeeps(mem, init, drop);
      var t, r := Without(init, drop), Without(s, drop);
      forall i, j | 0 <= i < j < |r| ensures Precedes(ByName, mem, r, i, j) {
        if j < |t| {
          assert Precedes(ByName, mem, t, i, j);
        } else {
          assert t[i] in init;
          var i' :| 0 <= i' < n && init[i'] == t[i];
          assert Precedes(ByName, mem, s, i', n);
        }
      }
    }
  }

  /** From an item that sends the search right (left), some search ends beyond (before) it, if no match lies there. */
  lemma SomeMiss(mem: Memory, s: seq<Ref>, key: View, b: nat) returns (pos: nat)
    requires forall p :: p in s ==> p in mem
    requires b < |s|
    requires Compare(ByName, key, mem[s[b]]) > 0 ==> forall i :: b < i < |s| ==> Compare(ByName, key, mem[s[i]]) != 0
    requires Compare(ByName, key, mem[s[b]]) < 0 ==> forall i :: 0 <= i < b ==> Compare(ByName, key, mem[s[i]]) != 0
    requires Compare(ByName, key, mem[s[b]]) != 0
    ensures Misses(ByName, mem, s, key, pos)
  {
    if Compare(ByName, key, mem[s[b]]) > 0 {
      pos := b + 1;
      while pos < |s| && Compare(ByName, key, mem[s[pos]]) > 0
        invariant b < pos <= |s| && Compare(ByName, key, mem[s[pos - 1]]) > 0
      {
        pos := pos + 1;
      }
    } else {
      pos := b;
      while pos > 0 && Compare(ByName, key, mem[s[pos - 1]]) < 0
        invariant 0 <= pos <= b && Compare(ByName, key, mem[s[pos]]) < 0
      {
        pos := pos - 1;
      }
    }
  }

  ghost predicate ClearTree(mem: Memory, s: seq<Ref>, owner: string, typ: string) {
    typ == WHATEVER ==> forall p, q :: p in s && q in s && p in mem && q in mem ==> !Blocks(owner, mem[p].id, mem[q].id)
  }

  ghost predicate NoMatch(mem: Memory, s: seq<Ref>, key: View) {
    forall p {:trigger Thins(mem, key, p)} :: p in s ==> !Thins(mem, key, p)
  }

  /** A task in the way: for some search tree the loop stops with a matching task still there. */
  lemma BlockedLeavesOne(mem: Memory, s: seq<Ref>, owner: string, x: Ref, y: Ref) returns (s': seq<Ref>)
    requires Ordered(ByName, mem, s) && x in s && y in s && x in mem && y in mem && Blocks(owner, mem[x].id, mem[y].id)
    ensures Residue(mem, s, SearchKey(owner, WHATEVER), s') && !NoMatch(mem, s', SearchKey(owner, WHATEVER))
  {
    var key := SearchKey(owner, WHATEVER);
    assert Kept(ByName, mem, x) && Kept(ByName, mem, y);
    CompareIsLexicographic(ByName, mem[x], mem[y]);
    WrongWay(mem[x], mem[y], owner, WHATEVER);
    var first := Compare(ByName, key, mem[x]) == 0;
    var match_, block := if first then x else y, if first then y else x;
    var drop := set p | p in s && Thins(mem, key, p) && p != match_;
    s' := Without(s, drop);
    WithoutKeeps(mem, s, drop);
    var a :| 0 <= a < |s'| && s'[a] == match_;
    var b :| 0 <= b < |s'| && s'[b] == block;
    assert (a < b ==> Precedes(ByName, mem, s', a, b)) && (b < a ==> Precedes(ByName, mem, s', b, a));
    CompareIsLexicographic(ByName, mem[y], mem[x]);
    forall p | p in s' ensures p in mem { assert Kept(ByName, mem, p); }
    forall i | 0 <= i < |s'| && i != a ensures Compare(ByName, key, mem[s'[i]]) != 0 {
      if s'[i] == match_ { OrderedDistinct(ByName, mem, s', i, a); }
      assert s'[i] !in drop;
    }
    assert Thins(mem, key, match_);
    var pos := SomeMiss(mem, s', key, b);
  }

  /**
   Over all search trees, balanced or not, the loop of `schedule_unscheduletask` leaves no matching
   task of a given schedule if and only if the type is given or no task of the owner stands in the way.
   */
  lemma SearchTreesAreExact(mem: Memory, s: seq<Ref>, owner: string, typ: string)
    requires Ordered(ByName, mem, s)
    ensures (forall s' :: Residue(mem, s, SearchKey(owner, typ), s') ==> NoMatch(mem, s', SearchKey(owner, typ)))
            <==> ClearTree(mem, s, owner, typ)
  {
    var key := SearchKey(owner, typ);
    if ClearTree(mem, s, owner, typ) {
      forall s' | Residue(mem, s, key, s') ensures NoMatch(mem, s', key) {
        var pos :| Misses(ByName, mem, s', key, pos);
        MissLeavesNone(mem, s', owner, typ, pos);
      }
    } else {
      var x, y :| x in s && y in s && x in mem && y in mem && Blocks(owner, mem[x].id, mem[y].id);
      var s' := BlockedLeavesOne(mem, s, owner, x, y);
    }
  }
}
