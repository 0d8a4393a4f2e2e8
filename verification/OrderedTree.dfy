/**
 The ordered tree of the scheduler (an `ldns` red-black tree), as the sequence of its items in order.
 Items are addresses of tasks; the comparator reads the tasks in memory.

 A search descends from the root of some subtree, so on the sequence it may inspect any item of the
 interval that is left. `Search` picks that item arbitrarily, which covers every shape a tree can have.
 */
module OrderedTree {
  import opened Prelude
  import opened TaskModel

  // The quantifiers below are instantiated on these named facts only, which keeps proofs small.

  ghost predicate Kept(k: Index, mem: Memory, p: Ref) {
    p in mem && Fits(k, mem[p])
  }

  ghost predicate Precedes(k: Index, mem: Memory, s: seq<Ref>, i: int, j: int)
    requires 0 <= i < j < |s|
  {
    s[i] in mem && s[j] in mem && Compare(k, mem[s[i]], mem[s[j]]) < 0
  }

  ghost predicate Ordered(k: Index, mem: Memory, s: seq<Ref>) {
    && (forall p {:trigger Kept(k, mem, p)} :: p in s ==> Kept(k, mem, p))
    && (forall i, j {:trigger Precedes(k, mem, s, i, j)} :: 0 <= i < j < |s| ==> Precedes(k, mem, s, i, j))
  }

  /** A search for `key` may end, unsuccessfully, between items `pos - 1` and `pos`. */
  ghost predicate Misses(k: Index, mem: Memory, s: seq<Ref>, key: View, pos: int) {
    && 0 <= pos <= |s|
    && (pos > 0 ==> s[pos - 1] in mem && Compare(k, key, mem[s[pos - 1]]) > 0)
    && (pos < |s| ==> s[pos] in mem && Compare(k, key, mem[s[pos]]) < 0)
  }

  method Search(k: Index, mem: Memory, s: seq<Ref>, key: View) returns (found: bool, pos: nat)
    requires forall p {:trigger Kept(k, mem, p)} :: p in s ==> Kept(k, mem, p)
    ensures found ==> pos < |s| && s[pos] in mem && Compare(k, key, mem[s[pos]]) == 0
    ensures !found ==> Misses(k, mem, s, key, pos)
  {
    var lo, hi := 0, |s|;
    while lo < hi
      invariant 0 <= lo <= hi <= |s|
      invariant lo > 0 ==> s[lo - 1] in mem && Compare(k, key, mem[s[lo - 1]]) > 0
      invariant hi < |s| ==> s[hi] in mem && Compare(k, key, mem[s[hi]]) < 0
    {
      var root :| lo <= root < hi;
      assert Kept(k, mem, s[root]);
      var c := Compare(k, key, mem[s[root]]);
      if c == 0 { return true, root; }
      if c < 0 { hi := root; } else { lo := root + 1; }
    }
    return false, lo;
  }

  /** Item `i` is in its place before or after the gap. */
  ghost predicate Splits(k: Index, mem: Memory, s: seq<Ref>, key: View, pos: int, i: int)
    requires 0 <= i < |s|
  {
    s[i] in mem && if i < pos then Compare(k, mem[s[i]], key) < 0 else Compare(k, key, mem[s[i]]) < 0
  }

  /** A missed search in an ordered tree splits it: smaller items before the gap, larger ones after. */
  lemma MissSplits(k: Index, mem: Memory, s: seq<Ref>, key: View, pos: nat)
    requires Ordered(k, mem, s) && Fits(k, key) && Misses(k, mem, s, key, pos)
    ensures forall i {:trigger Splits(k, mem, s, key, pos, i)} :: 0 <= i < |s| ==> Splits(k, mem, s, key, pos, i)
  {
    forall i | 0 <= i < |s| ensures Splits(k, mem, s, key, pos, i) {
      assert Kept(k, mem, s[i]);
      if i < pos {
        assert Kept(k, mem, s[pos - 1]) && (i < pos - 1 ==> Precedes(k, mem, s, i, pos - 1));
        CompareIsLexicographic(k, key, mem[s[pos - 1]]);
        CompareIsLexicographic(k, mem[s[pos - 1]], key);
        if i < pos - 1 { CompareTransitive(k, mem[s[i]], mem[s[pos - 1]], key); }
      } else {
        assert Kept(k, mem, s[pos]) && (pos < i ==> Precedes(k, mem, s, pos, i));
        if pos < i { CompareTransitive(k, key, mem[s[pos]], mem[s[i]]); }
      }
    }
  }

  lemma OrderedDistinct(k: Index, mem: Memory, s: seq<Ref>, i: nat, j: nat)
    requires Ordered(k, mem, s) && i < |s| && j < |s|
    requires s[i] in mem && s[j] in mem && Same(k, mem[s[i]], mem[s[j]])
    ensures i == j
  {
    assert Kept(k, mem, s[i]) && Kept(k, mem, s[j]);
    assert (i < j ==> Precedes(k, mem, s, i, j)) && (j < i ==> Precedes(k, mem, s, j, i));
    CompareIsLexicographic(k, mem[s[i]], mem[s[j]]);
    CompareIsLexicographic(k, mem[s[j]], mem[s[i]]);
  }

  /** `p` is stored and stands in the place of `key`. */
  ghost predicate Matches(k: Index, mem: Memory, key: View, p: Ref) {
    p in mem && Same(k, key, mem[p])
  }

  /** In an ordered tree every search finds the one item in the key's place, if there is one. */
  lemma SearchIsExact(k: Index, mem: Memory, s: seq<Ref>, key: View, pos: nat)
    requires Ordered(k, mem, s) && Fits(k, key)
    ensures Misses(k, mem, s, key, pos) ==>
              forall p {:trigger Matches(k, mem, key, p)} :: p in s ==> !Matches(k, mem, key, p)
    ensures pos < |s| && s[pos] in mem && Compare(k, key, mem[s[pos]]) == 0 ==> Matches(k, mem, key, s[pos])
  {
    if Misses(k, mem, s, key, pos) {
      MissSplits(k, mem, s, key, pos);
      forall p | p in s ensures !Matches(k, mem, key, p) {
        var i :| 0 <= i < |s| && s[i] == p;
        assert Splits(k, mem, s, key, pos, i) && Kept(k, mem, p);
        CompareIsLexicographic(k, key, mem[p]);
        CompareIsLexicographic(k, mem[p], key);
      }
    }
    if pos < |s| && s[pos] in mem {
      assert Kept(k, mem, s[pos]);
      CompareIsLexicographic(k, key, mem[s[pos]]);
    }
  }

  function InsertAt(s: seq<Ref>, pos: nat, x: Ref): seq<Ref>
    requires pos <= |s|
  {
    s[..pos] + [x] + s[pos..]
  }

  function DropAt(s: seq<Ref>, pos: nat): seq<Ref>
    requires pos < |s|
  {
    s[..pos] + s[pos + 1..]
  }

  lemma MemberInsert(s: seq<Ref>, pos: nat, x: Ref)
    requires pos <= |s|
    ensures forall p :: p in InsertAt(s, pos, x) <==> p in s || p == x
  {
    assert s == s[..pos] + s[pos..];
  }

  lemma OrderedInsert(k: Index, mem: Memory, s: seq<Ref>, x: Ref, pos: nat)
    requires Ordered(k, mem, s) && Kept(k, mem, x) && Misses(k, mem, s, mem[x], pos)
    ensures Ordered(k, mem, InsertAt(s, pos, x))
  {
    MissSplits(k, mem, s, mem[x], pos);
    MemberInsert(s, pos, x);
    var r := InsertAt(s, pos, x);
    forall i, j | 0 <= i < j < |r| ensures Precedes(k, mem, r, i, j) {
      if j == pos {
        assert r[i] == s[i] && r[j] == x && Splits(k, mem, s, mem[x], pos, i);
      } else if i == pos {
        assert r[i] == x && r[j] == s[j - 1] && Splits(k, mem, s, mem[x], pos, j - 1);
      } else {
        var i', j' := if i < pos then i else i - 1, if j < pos then j else j - 1;
        assert r[i] == s[i'] && r[j] == s[j'];
        assert Precedes(k, mem, s, i', j');
      }
    }
  }

  lemma OrderedDrop(k: Index, mem: Memory, s: seq<Ref>, pos: nat)
    requires Ordered(k, mem, s) && pos < |s|
    ensures Ordered(k, mem, DropAt(s, pos))
    ensures forall x :: x in DropAt(s, pos) <==> x in s && x != s[pos]
  {
    var r := DropAt(s, pos);
    forall i, j | 0 <= i < j < |r| ensures Precedes(k, mem, r, i, j) {
      assert Precedes(k, mem, s, if i < pos then i else i + 1, if j < pos then j else j + 1);
    }
    forall j: nat | j < |s| && s[j] == s[pos] ensures j == pos {
      assert Kept(k, mem, s[pos]);
      OrderedDistinct(k, mem, s, j, pos);
    }
    forall x | x in s && x != s[pos] ensures x in r {
      var j :| 0 <= j < |s| && s[j] == x;
      assert x == if j < pos then r[j] else r[j - 1];
    }
  }

  /** `ldns_rbtree_insert`: refuses an item whose place is taken. */
  method Insert(k: Index, mem: Memory, s: seq<Ref>, x: Ref) returns (ok: bool, s': seq<Ref>)
    requires Ordered(k, mem, s) && Kept(k, mem, x)
    ensures ok <==> forall p {:trigger Matches(k, mem, mem[x], p)} :: p in s ==> !Matches(k, mem, mem[x], p)
    ensures ok ==> Ordered(k, mem, s') && forall p :: p in s' <==> p in s || p == x
    ensures !ok ==> s' == s
  {
    var found, pos := Search(k, mem, s, mem[x]);
    SearchIsExact(k, mem, s, mem[x], pos);
    if found { return false, s; }
    OrderedInsert(k, mem, s, x, pos);
    MemberInsert(s, pos, x);
    return true, InsertAt(s, pos, x);
  }

  /** `ldns_rbtree_delete`: takes out the item in the key's place. */
  method Delete(k: Index, mem: Memory, s: seq<Ref>, key: View) returns (gone: Option<Ref>, s': seq<Ref>)
    requires Ordered(k, mem, s) && Fits(k, key)
    ensures gone.None? ==> s' == s && forall p {:trigger Matches(k, mem, key, p)} :: p in s ==> !Matches(k, mem, key, p)
    ensures gone.Some? ==> gone.value in s && Matches(k, mem, key, gone.value)
    ensures gone.Some? ==> Ordered(k, mem, s') && |s'| == |s| - 1 && forall p :: p in s' <==> p in s && p != gone.value
  {
    var found, pos := Search(k, mem, s, key);
    SearchIsExact(k, mem, s, key, pos);
    if !found { return None, s; }
    OrderedDrop(k, mem, s, pos);
    return Some(s[pos]), DropAt(s, pos);
  }

  /** The order depends on the keys of the listed items only. */
  lemma OrderedFrame(k: Index, mem: Memory, mem': Memory, s: seq<Ref>)
    requires Ordered(k, mem, s)
    requires forall p :: p in s && Kept(k, mem, p) ==> Kept(k, mem', p) && Same(k, mem[p], mem'[p])
    ensures Ordered(k, mem', s)
  {
    forall p | p in s ensures Kept(k, mem', p) { assert Kept(k, mem, p); }
    forall i, j | 0 <= i < j < |s| ensures Precedes(k, mem', s, i, j) {
      assert Precedes(k, mem, s, i, j) && Kept(k, mem, s[i]) && Kept(k, mem, s[j]);
      CompareIsLexicographic(k, mem[s[i]], mem[s[j]]);
      CompareIsLexicographic(k, mem'[s[i]], mem'[s[j]]);
    }
  }
}
