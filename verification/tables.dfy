/** The fixed-capacity slot tables a process keeps for files, semaphores
    and children.  Every table is scanned first-fit, and a slot is
    either empty or holds exactly one reference. */
module Tables {
  import opened Machine

  type Table<T> = seq<Option<T>>

  predicate Full<T>(t: Table<T>) {
    forall i :: 0 <= i < |t| ==> t[i].Some?
  }

  /** The table with every slot empty. */
  function Empty<T>(n: nat): (t: Table<T>)
    ensures |t| == n && forall i :: 0 <= i < n ==> t[i].None?
  {
    seq(n, _ => None)
  }

  /** The loop `for (i = from; i < N; i++) if (t[i] == nullptr) return i;
      return -1;` — the lowest empty slot at or after `from`. */
  function FirstFreeFrom<T>(t: Table<T>, from: nat): (r: int)
    requires from <= |t|
    decreases |t| - from
    ensures r == -1 ==> forall j :: from <= j < |t| ==> t[j].Some?
    ensures r != -1 ==> from <= r < |t| && t[r].None? && forall j :: from <= j < r ==> t[j].Some?
  {
    if from == |t| then -1
    else if t[from].None? then from
    else FirstFreeFrom(t, from + 1)
  }

  /** The lowest empty slot, or -1 when every slot is occupied. */
  function FirstFree<T>(t: Table<T>): (r: int)
    ensures r == -1 <==> Full(t)
    ensures r != -1 ==> 0 <= r < |t| && t[r].None? && forall j :: 0 <= j < r ==> t[j].Some?
  {
    FirstFreeFrom(t, 0)
  }

  /** Stores `x` in the lowest empty slot and returns the slot, or returns
      -1 and leaves the table alone when it is full. */
  function Install<T>(t: Table<T>, x: T): (res: (Table<T>, int))
    ensures |res.0| == |t|
    ensures res.1 == -1 <==> Full(t)
    ensures res.1 == -1 ==> res.0 == t
    ensures res.1 != -1 ==>
      && 0 <= res.1 < |t| && t[res.1].None?
      && (forall j :: 0 <= j < res.1 ==> t[j].Some?)
      && res.0 == t[res.1 := Some(x)]
  {
    var i := FirstFree(t);
    if i == -1 then (t, -1) else (t[i := Some(x)], i)
  }

  /** When exactly one slot, `j`, is empty, installing uses `j`. */
  lemma InstallUsesOnlyFreeSlot<T>(t: Table<T>, j: nat, x: T)
    requires j < |t| && t[j].None?
    requires forall i :: 0 <= i < |t| && i != j ==> t[i].Some?
    ensures Install(t, x).1 == j
  {
  }

  /** After emptying slot `j` the next install lands in the lowest empty
      slot: `j` itself unless an earlier slot was already empty. */
  lemma {:induction false} InstallAfterClear<T>(t: Table<T>, j: nat, x: T)
    requires j < |t|
    ensures var f := FirstFree(t);
            Install(t[j := None], x).1 == if f == -1 || j < f then j else f
  {
    var f := FirstFree(t);
    var t' := t[j := None];
    var r := Install(t', x).1;
    if f == -1 || j < f {
      assert t'[j].None?;
      assert forall i :: 0 <= i < j ==> t'[i].Some?;
      assert r != -1;
      assert r == j;
    } else {
      assert t'[f].None?;
      assert forall i :: 0 <= i < f ==> t'[i].Some?;
      assert r == f;
    }
  }
}
