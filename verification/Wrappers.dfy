/** The result type and the facts about sequences that every other module shares. */
module Wrappers {
  datatype Option<+T> = None | Some(value: T)

  /** `n` times the same value. */
  function Repeated<T>(x: T, n: nat): seq<T> {
    if n == 0 then [] else Repeated(x, n - 1) + [x]
  }

  lemma NoneRepeated<T>(x: T)
    ensures Repeated(x, 0) == []
  {
  }

  lemma RepeatedInit<T>(x: T, n: nat)
    requires n > 0
    ensures Repeated(x, n) != []
    ensures (var last := |Repeated(x, n)| - 1;
             Repeated(x, n)[..last] == Repeated(x, n - 1) && Repeated(x, n)[last] == x)
  {
  }

  lemma ConcatAssociative<T>(a: seq<T>, b: seq<T>, c: seq<T>)
    ensures a + (b + c) == a + b + c
  {
  }

  lemma DropConcat<T>(a: seq<T>, b: seq<T>, k: nat)
    requires k <= |a|
    ensures (a + b)[k..] == a[k..] + b
  {
  }

  lemma DropPrefix<T>(a: seq<T>, b: seq<T>)
    ensures (a + b)[|a|..] == b
  {
  }

  /** The values present, in order. */
  function Kept<T>(rows: seq<Option<T>>): seq<T> {
    if rows == [] then []
    else
      var init, last := rows[..|rows| - 1], rows[|rows| - 1];
      Kept(init) + (if last.Some? then [last.value] else [])
  }

  lemma KeptSnoc<T>(rows: seq<Option<T>>, row: Option<T>)
    ensures Kept(rows + [row]) == Kept(rows) + (if row.Some? then [row.value] else [])
  {
    assert (rows + [row])[..|rows|] == rows;
  }

  lemma {:induction false} KeptIsEmpty<T>(rows: seq<Option<T>>)
    ensures Kept(rows) == [] <==> forall i | 0 <= i < |rows| :: rows[i].None?
  {
    if rows != [] {
      var init := rows[..|rows| - 1];
      assert forall i | 0 <= i < |init| :: init[i] == rows[i];
      KeptIsEmpty(init);
    }
  }

  lemma {:induction false} KeptIsPresent<T>(rows: seq<Option<T>>, k: nat)
    requires k < |Kept(rows)|
    ensures exists i :: 0 <= i < |rows| && rows[i] == Some(Kept(rows)[k])
  {
    var init := rows[..|rows| - 1];
    if k < |Kept(init)| {
      KeptIsPresent(init, k);
      var i :| 0 <= i < |init| && init[i] == Some(Kept(init)[k]);
      assert rows[i] == init[i];
    } else {
      assert rows[|rows| - 1] == Some(Kept(rows)[k]);
    }
  }

  /** If nothing but row `k` can be present, that row alone is kept. */
  lemma {:induction false} KeptSingle<T>(rows: seq<Option<T>>, k: int)
    requires forall i | 0 <= i < |rows| && i != k :: rows[i].None?
    ensures Kept(rows) == if 0 <= k < |rows| && rows[k].Some? then [rows[k].value] else []
  {
    if rows != [] {
      KeptSingle(rows[..|rows| - 1], k);
    }
  }
}
