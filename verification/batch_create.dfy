/**
  An independent description of what CreateTodos does to the collection:
  which prefix of the batch is written, and when the call succeeds.
 */
module BatchCreate {
  import opened ObjectIds
  import opened Todos
  import opened Collection
  import opened TodoServer

  /**
    The i-th insert of a batch started at element `lo` is accepted: the
    collection assigns a key that neither the collection nor an earlier insert
    of the same batch holds.
   */
  ghost predicate Accepted(store: Store, ins: nat -> InsertOracle, lo: nat, i: nat) {
    && ins(i).Assign?
    && ins(i).key !in store
    && forall h :: lo <= h < i ==> !(ins(h).Assign? && ins(h).key == ins(i).key)
  }

  /** The i-th insert is accepted and yields an object identifier, so CreateTodos goes on. */
  ghost predicate Issued(store: Store, ins: nat -> InsertOracle, lo: nat, i: nat) {
    Accepted(store, ins, lo, i) && ins(i).key.Oid?
  }

  ghost predicate AllIssued(store: Store, ins: nat -> InsertOracle, lo: nat, n: nat) {
    forall i :: lo <= i < n ==> Issued(store, ins, lo, i)
  }

  /**
    The collection after elements lo .. m-1 of the batch have been written one
    after the other, each under the key its insert was assigned.
   */
  ghost function Written(store: Store, todos: seq<Todo>, ins: nat -> InsertOracle, lo: nat, m: nat): (s: Store)
    requires lo <= m <= |todos|
    decreases m
  {
    if m == lo then store
    else if ins(m - 1).Fail? then Written(store, todos, ins, lo, m - 1)
    else Written(store, todos, ins, lo, m - 1)[ins(m - 1).key := BatchRecord(todos[m - 1])]
  }

  /** Once element lo is written, acceptance of the later elements is judged against the grown collection. */
  lemma AcceptedShift(store: Store, doc: Todo, ins: nat -> InsertOracle, lo: nat, j: nat)
    requires lo < j
    requires Accepted(store, ins, lo, lo)
    ensures var grown := store[ins(lo).key := doc];
      Accepted(grown, ins, lo + 1, j) <==> Accepted(store, ins, lo, j)
  {
  }

  lemma {:induction false} WrittenShift(store: Store, todos: seq<Todo>, ins: nat -> InsertOracle, lo: nat, m: nat)
    requires lo < m <= |todos|
    requires ins(lo).Assign?
    ensures Written(store[ins(lo).key := BatchRecord(todos[lo])], todos, ins, lo + 1, m)
         == Written(store, todos, ins, lo, m)
    decreases m
  {
    if m > lo + 1 {
      WrittenShift(store, todos, ins, lo, m - 1);
    }
  }

  /** One step of the batch loop when element lo is issued: the rest of the loop runs over the grown collection. */
  lemma CreateFromIssuedStep(store: Store, todos: seq<Todo>, ins: nat -> InsertOracle, lo: nat)
    requires lo < |todos|
    requires Issued(store, ins, lo, lo)
    ensures var r := CreateFrom(store, todos, ins, lo);
      var rest := CreateFrom(store[ins(lo).key := BatchRecord(todos[lo])], todos, ins, lo + 1);
      r.store == rest.store && (r.result.Ok? <==> rest.result.Ok?)
  {
  }

  /** One step of the batch loop when element lo is not issued: the loop fails at once, having written at most that element. */
  lemma CreateFromStuckStep(store: Store, todos: seq<Todo>, ins: nat -> InsertOracle, lo: nat)
    requires lo < |todos|
    requires !Issued(store, ins, lo, lo)
    ensures var r := CreateFrom(store, todos, ins, lo);
      && r.result.Err?
      && r.store == Written(store, todos, ins, lo, if Accepted(store, ins, lo, lo) then lo + 1 else lo)
  {
  }

  /** Acceptance and issue of every later element, judged before and after element lo is written. */
  lemma IssuedShift(store: Store, grown: Store, doc: Todo, ins: nat -> InsertOracle, lo: nat)
    requires Issued(store, ins, lo, lo)
    requires grown == store[ins(lo).key := doc]
    ensures forall j :: lo < j ==> (Accepted(grown, ins, lo + 1, j) <==> Accepted(store, ins, lo, j))
    ensures forall j :: lo < j ==> (Issued(grown, ins, lo + 1, j) <==> Issued(store, ins, lo, j))
    ensures forall m :: lo < m ==> (AllIssued(grown, ins, lo + 1, m) <==> AllIssued(store, ins, lo, m))
  {
    forall j | lo < j
      ensures Accepted(grown, ins, lo + 1, j) <==> Accepted(store, ins, lo, j)
    {
      AcceptedShift(store, doc, ins, lo, j);
    }
    forall m | lo < m
      ensures AllIssued(grown, ins, lo + 1, m) <==> AllIssued(store, ins, lo, m)
    {
      if AllIssued(grown, ins, lo + 1, m) {
        forall i | lo <= i < m
          ensures Issued(store, ins, lo, i)
        {
          if i > lo {
            assert Issued(grown, ins, lo + 1, i);
          }
        }
      }
      if AllIssued(store, ins, lo, m) {
        var next := lo + 1;
        forall i | next <= i < m
          ensures Issued(grown, ins, next, i)
        {
          assert Issued(store, ins, lo, i);
        }
      }
    }
  }

  /** The batch loop from element lo on succeeds exactly when all its inserts are issued, and then writes them all. */
  lemma {:induction false} CreateFromSucceeds(store: Store, todos: seq<Todo>, ins: nat -> InsertOracle, lo: nat)
    requires lo <= |todos|
    ensures var r := CreateFrom(store, todos, ins, lo);
      && (r.result.Ok? <==> AllIssued(store, ins, lo, |todos|))
      && (r.result.Ok? ==> r.store == Written(store, todos, ins, lo, |todos|))
    decreases |todos| - lo
  {
    if lo < |todos| {
      if Issued(store, ins, lo, lo) {
        var grown := store[ins(lo).key := BatchRecord(todos[lo])];
        var r := CreateFrom(store, todos, ins, lo);
        var rest := CreateFrom(grown, todos, ins, lo + 1);
        CreateFromIssuedStep(store, todos, ins, lo);
        assert r.store == rest.store && (r.result.Ok? <==> rest.result.Ok?);
        CreateFromSucceeds(grown, todos, ins, lo + 1);
        assert rest.result.Ok? <==> AllIssued(grown, ins, lo + 1, |todos|);
        IssuedShift(store, grown, BatchRecord(todos[lo]), ins, lo);
        assert AllIssued(grown, ins, lo + 1, |todos|) <==> AllIssued(store, ins, lo, |todos|);
        WrittenShift(store, todos, ins, lo, |todos|);
      } else {
        CreateFromStuckStep(store, todos, ins, lo);
        assert !AllIssued(store, ins, lo, |todos|);
      }
    }
  }

  /** A failing batch loop stops at the first element that is not issued, having written the elements before it. */
  lemma {:induction false} CreateFromFails(store: Store, todos: seq<Todo>, ins: nat -> InsertOracle, lo: nat)
    requires lo <= |todos|
    ensures var r := CreateFrom(store, todos, ins, lo);
      r.result.Err? ==>
        exists j ::
          && lo <= j < |todos|
          && AllIssued(store, ins, lo, j)
          && !Issued(store, ins, lo, j)
          && r.store == Written(store, todos, ins, lo, if Accepted(store, ins, lo, j) then j + 1 else j)
    decreases |todos| - lo
  {
    var r := CreateFrom(store, todos, ins, lo);
    if lo == |todos| || r.result.Ok? {
      return;
    }
    if !Issued(store, ins, lo, lo) {
      CreateFromStuckStep(store, todos, ins, lo);
      assert AllIssued(store, ins, lo, lo);
      return;
    }
    var grown := store[ins(lo).key := BatchRecord(todos[lo])];
    var rest := CreateFrom(grown, todos, ins, lo + 1);
    CreateFromIssuedStep(store, todos, ins, lo);
    CreateFromFails(grown, todos, ins, lo + 1);
    var j :| && lo + 1 <= j < |todos|
             && AllIssued(grown, ins, lo + 1, j)
             && !Issued(grown, ins, lo + 1, j)
             && rest.store == Written(grown, todos, ins, lo + 1, if Accepted(grown, ins, lo + 1, j) then j + 1 else j);
    IssuedShift(store, grown, BatchRecord(todos[lo]), ins, lo);
    assert AllIssued(store, ins, lo, j);
    var m := if Accepted(store, ins, lo, j) then j + 1 else j;
    WrittenShift(store, todos, ins, lo, m);
  }

  /**
    CreateTodos succeeds exactly when every insert is accepted with an object
    identifier; it then holds the collection with all elements written in order
    and answers pairwise distinct ids. Otherwise some element j is the first
    that is not: the elements before it are written, element j as well when
    its insert went through with a key that is not an object identifier, and
    none after it.
   */
  lemma CreateTodosOutcome(store: Store, todos: seq<Todo>, ins: nat -> InsertOracle)
    ensures var r := CreateTodos(store, todos, ins);
      && (r.result.Ok? <==> AllIssued(store, ins, 0, |todos|))
      && (r.result.Ok? ==> r.store == Written(store, todos, ins, 0, |todos|))
      && (r.result.Ok? ==> Distinct(r.result.value))
      && (r.result.Err? ==>
            exists j ::
              && 0 <= j < |todos|
              && AllIssued(store, ins, 0, j)
              && !Issued(store, ins, 0, j)
              && r.store == Written(store, todos, ins, 0, if Accepted(store, ins, 0, j) then j + 1 else j))
  {
    CreateFromSucceeds(store, todos, ins, 0);
    CreateFromFails(store, todos, ins, 0);
    var r := CreateTodos(store, todos, ins);
    if r.result.Ok? {
      forall a, b | 0 <= a < b < |r.result.value|
        ensures r.result.value[a] != r.result.value[b]
      {
        assert Issued(store, ins, 0, b);
      }
    }
  }
}
