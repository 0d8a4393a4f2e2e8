/**
 Tasks and the three comparators that order them (common/scheduler/task.c).

 The tuple (owner, type, class) identifies a task and never changes; the due date,
 the payload, the lock and the back-off are updated in place.
 */
module TaskModel {
  import opened Prelude

  type Payload = nat

  /** A mutex: one that a caller hands in with a task, or one that the scheduler allocates. */
  datatype Lock = Given(n: nat) | Allocated(n: nat)

  const WHATEVER := "[any]"
  const WHENEVER := -1
  const CLASS_ENFORCER := "enforcer"
  const CLASS_SIGNER := "signer"
  const TYPE_ENFORCE := "enforce"
  const MAX_DUE := 0x7fff_ffff

  datatype TTuple = TTuple(owner: string, typ: string, cls: string)

  /** The tasks of one (owner, class) share a lock. */
  datatype Resource = Resource(owner: string, cls: string)

  function ResourceOf(id: TTuple): Resource { Resource(id.owner, id.cls) }

  /** The contents of a task structure. */
  datatype View = View(id: TTuple, due: int, callback: Option<nat>, userdata: Option<Payload>,
                       freedata: Option<nat>, lock: Option<Lock>, backoff: int)

  /** Tasks live in memory at an address; both trees hold the same address. */
  type Ref = nat
  type Memory = map<Ref, View>

  /** The payload a task owns: the one it is to free. Without a free function the pointer is only borrowed. */
  function Owned(v: View): Option<Payload> {
    if v.freedata.Some? then v.userdata else None
  }

  /** What `task_destroy` hands to the payload's free function. */
  function Released(v: View): seq<Payload> {
    if Owned(v).Some? then [Owned(v).value] else []
  }

  // ----- comparators -----

  function CmpTTuple(x: TTuple, y: TTuple): int {
    var owner := StrCmp(x.owner, y.owner);
    if owner != 0 then owner
    else
      var typ := StrCmp(x.typ, y.typ);
      if x.typ != WHATEVER && y.typ != WHATEVER && typ != 0 then typ
      else StrCmp(x.cls, y.cls)
  }

  function CmpLock(x: TTuple, y: TTuple): int {
    var owner := StrCmp(x.owner, y.owner);
    if owner != 0 then owner else StrCmp(x.cls, y.cls)
  }

  function CmpTime(x: View, y: View): int {
    if x.due != WHENEVER && y.due != WHENEVER && x.due != y.due
    then ToInt32(x.due - y.due)
    else CmpTTuple(x.id, y.id)
  }

  /** The three trees of the scheduler, each with its own comparator. */
  datatype Index = ByTime | ByName | ByLock

  function Compare(k: Index, x: View, y: View): int {
    match k
    case ByTime => CmpTime(x, y)
    case ByName => CmpTTuple(x.id, y.id)
    case ByLock => CmpLock(x.id, y.id)
  }

  /** What a task must satisfy to be stored in an index. */
  predicate Storable(v: View) {
    0 <= v.due <= MAX_DUE && v.id.typ != WHATEVER
  }

  predicate Fits(k: Index, v: View) {
    match k
    case ByTime => Storable(v)
    case ByName => v.id.typ != WHATEVER
    case ByLock => true
  }

  // ----- the order they are meant to be -----

  ghost predicate NameLess(x: TTuple, y: TTuple) {
    || StrLess(x.owner, y.owner)
    || (x.owner == y.owner && StrLess(x.typ, y.typ))
    || (x.owner == y.owner && x.typ == y.typ && StrLess(x.cls, y.cls))
  }

  ghost predicate LockLess(x: TTuple, y: TTuple) {
    StrLess(x.owner, y.owner) || (x.owner == y.owner && StrLess(x.cls, y.cls))
  }

  ghost predicate Less(k: Index, x: View, y: View) {
    match k
    case ByTime => x.due < y.due || (x.due == y.due && NameLess(x.id, y.id))
    case ByName => NameLess(x.id, y.id)
    case ByLock => LockLess(x.id, y.id)
  }

  /** Two views occupy the same place in an index. */
  ghost predicate Same(k: Index, x: View, y: View) {
    match k
    case ByTime => x.due == y.due && x.id == y.id
    case ByName => x.id == y.id
    case ByLock => ResourceOf(x.id) == ResourceOf(y.id)
  }

  /** Every comparator is the lexicographic order of its fields, on all tasks that may be stored. */
  lemma CompareIsLexicographic(k: Index, x: View, y: View)
    requires Fits(k, x) && Fits(k, y)
    ensures Compare(k, x, y) < 0 <==> Less(k, x, y)
    ensures Compare(k, x, y) == 0 <==> Same(k, x, y)
    ensures Compare(k, x, y) > 0 <==> Less(k, y, x)
  {
    StrCmpSign(x.id.owner, y.id.owner);
    StrCmpSign(x.id.typ, y.id.typ);
    StrCmpSign(x.id.cls, y.id.cls);
    StrCmpSign(y.id.owner, x.id.owner);
    StrCmpSign(y.id.typ, x.id.typ);
    StrCmpSign(y.id.cls, x.id.cls);
  }

  lemma CompareTransitive(k: Index, x: View, y: View, z: View)
    requires Fits(k, x) && Fits(k, y) && Fits(k, z)
    requires Compare(k, x, y) < 0 && Compare(k, y, z) < 0
    ensures Compare(k, x, z) < 0
  {
    StrCmpSign(x.id.owner, y.id.owner);
    StrCmpSign(y.id.owner, z.id.owner);
    StrCmpSign(x.id.typ, y.id.typ);
    StrCmpSign(y.id.typ, z.id.typ);
    if StrCmp(x.id.owner, y.id.owner) <= 0 && StrCmp(y.id.owner, z.id.owner) <= 0 {
      StrCmpTransitive(x.id.owner, y.id.owner, z.id.owner);
    }
    if StrCmp(x.id.typ, y.id.typ) <= 0 && StrCmp(y.id.typ, z.id.typ) <= 0 {
      StrCmpTransitive(x.id.typ, y.id.typ, z.id.typ);
    }
    if StrCmp(x.id.cls, y.id.cls) <= 0 && StrCmp(y.id.cls, z.id.cls) <= 0 {
      StrCmpTransitive(x.id.cls, y.id.cls, z.id.cls);
    }
  }

  /** By name and by lock, swapping the sides negates the result, also for a key with an unspecified type. */
  lemma CompareIsAntisymmetric(k: Index, x: View, y: View)
    requires k != ByTime
    ensures Compare(k, x, y) == -Compare(k, y, x)
  {
    StrCmpSign(x.id.owner, y.id.owner);
    StrCmpSign(x.id.typ, y.id.typ);
    StrCmpSign(x.id.cls, y.id.cls);
  }

  /** An unspecified type, or an unspecified date, on either side is passed over. */
  lemma UnspecifiedIsPassedOver(x: View, y: View)
    ensures x.id.typ == "[any]" || y.id.typ == "[any]" ==> Compare(ByName, x, y) == Compare(ByLock, x, y)
    ensures x.due == -1 || y.due == -1 ==> Compare(ByTime, x, y) == Compare(ByName, x, y)
  {
  }

  /** The order is strict and total on storable tasks. */
  lemma LessIsStrictTotalOrder(k: Index, x: View, y: View, z: View)
    requires Fits(k, x) && Fits(k, y) && Fits(k, z)
    ensures !Less(k, x, x)
    ensures Less(k, x, y) && Less(k, y, z) ==> Less(k, x, z)
    ensures Less(k, x, y) || Same(k, x, y) || Less(k, y, x)
    ensures !(Less(k, x, y) && Less(k, y, x))
  {
    CompareIsLexicographic(k, x, x);
    CompareIsLexicographic(k, x, y);
    CompareIsLexicographic(k, y, z);
    CompareIsLexicographic(k, x, z);
    CompareIsLexicographic(k, y, x);
    if Less(k, x, y) && Less(k, y, z) { CompareTransitive(k, x, y, z); }
  }

  ghost predicate OrdersDatesUpTo(limit: nat) {
    forall x: View, y: View :: 0 <= x.due <= limit && 0 <= y.due <= limit && x.due < y.due ==>
      CmpTime(x, y) < 0 && CmpTime(y, x) > 0
  }

  /** A task due at 0 and one due at 2^31: each of them compares as the earlier one. */
  lemma WideDatesCollide(x: View, y: View)
    requires x.due == 0 && y.due == MAX_DUE + 1
    ensures CmpTime(x, y) < 0 && CmpTime(y, x) < 0
  {
  }

  /** The truncated difference of the time comparator orders the dates 0..limit if and only if limit fits 31 bits. */
  lemma DateRangeIsExact(limit: nat)
    ensures OrdersDatesUpTo(limit) <==> limit <= MAX_DUE
  {
    if limit > MAX_DUE {
      var id := TTuple("", "", "");
      var x := View(id, 0, None, None, None, None, 0);
      var y := x.(due := MAX_DUE + 1);
      assert CmpTime(y, x) < 0;
    }
  }
}
