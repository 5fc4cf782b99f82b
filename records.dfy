/**
 Records: the values the employee store is made of.
 The store is a Python dict from employee id to a record with the four keys
 name, department, salary and active. A dict keeps its keys in insertion
 order, so the store is modelled by a map together with the sequence of its
 keys in that order; `Items` is the dict's `items()` in that order, which is
 also the row order of the table built from it.
 */
module Records {

  datatype Employee = Employee(name: string, department: string, salary: int, active: bool)

  /** The defaults of `add_employee`'s keyword parameters. */
  const DefaultName: string := "Unknown"
  const DefaultDepartment: string := "N/A"
  const DefaultSalary: int := 0
  const DefaultActive: bool := false

  /** One row of the table: the dict key (the table's index) and its record. */
  datatype Row = Row(id: string, emp: Employee)

  datatype Option<T> = None | Some(value: T)

  /** The exceptions the queries raise. */
  datatype Error =
    | KeyError(column: string)   // indexing a column the table does not have
    | EmptyArgmax                // idxmax of an empty series

  datatype Result<T> = Success(value: T) | Failure(error: Error) {
    predicate IsFailure() { Failure? }
    function PropagateFailure<U>(): Result<U>
      requires Failure?
    {
      Failure(error)
    }
    function Extract(): T
      requires Success?
    {
      value
    }
  }

  predicate IsActive(e: Employee) { e.active }

  function InDepartment(d: string): Employee -> bool
  {
    (e: Employee) => e.department == d
  }

  predicate Distinct(ids: seq<string>)
  {
    forall i, j :: 0 <= i < j < |ids| ==> ids[i] != ids[j]
  }

  /** Dropping the first id keeps the rest distinct, and the first id is not among them. */
  lemma DistinctTail(ids: seq<string>)
    requires ids != [] && Distinct(ids)
    ensures Distinct(ids[1..]) && ids[0] !in ids[1..]
  {
    var rest := ids[1..];
    forall i, j | 0 <= i < j < |rest| ensures rest[i] != rest[j] {
      assert rest[i] == ids[i + 1] && rest[j] == ids[j + 1];
    }
    forall j | 0 <= j < |rest| ensures rest[j] != ids[0] {
      assert rest[j] == ids[j + 1];
    }
  }

  /** The insertion order lists every key of the dict exactly once. */
  predicate WellFormed(order: seq<string>, emps: map<string, Employee>)
  {
    && Distinct(order)
    && (forall id :: id in order ==> id in emps)
    && (forall id :: id in emps ==> id in order)
  }

  /** The ids an insertion order lists. */
  function KeySet(order: seq<string>): set<string>
  {
    if order == [] then {} else {order[0]} + KeySet(order[1..])
  }

  lemma {:induction false} KeySetMembers(order: seq<string>)
    ensures forall id :: id in KeySet(order) <==> id in order
  {
    if order != [] {
      KeySetMembers(order[1..]);
      assert forall id :: id in order <==> id == order[0] || id in order[1..];
    }
  }

  /** The key set of an order without repeats is the key set of the dict
      exactly when the order is well-formed for it. */
  lemma KeySetWellFormed(order: seq<string>, emps: map<string, Employee>)
    ensures Distinct(order) && emps.Keys == KeySet(order) <==> WellFormed(order, emps)
  {
    KeySetMembers(order);
  }

  /** The dict's `items()`, in insertion order. */
  function Items(order: seq<string>, emps: map<string, Employee>): (r: seq<Row>)
    requires forall id :: id in order ==> id in emps
    ensures |r| == |order|
    ensures forall i :: 0 <= i < |order| ==> r[i] == Row(order[i], emps[order[i]])
  {
    if order == [] then [] else [Row(order[0], emps[order[0]])] + Items(order[1..], emps)
  }

  /** Every item of a well-formed store is one of its entries, and every
      entry is an item. */
  lemma ItemsAreEntries(order: seq<string>, emps: map<string, Employee>)
    requires WellFormed(order, emps)
    ensures forall x: Row :: x in Items(order, emps) <==> x.id in emps && emps[x.id] == x.emp
  {
    var rows := Items(order, emps);
    forall x: Row | x.id in emps && emps[x.id] == x.emp ensures x in rows {
      var i :| 0 <= i < |order| && order[i] == x.id;
      assert rows[i] == x;
    }
  }

  /** The number of rows whose record satisfies `p`. */
  function CountIf(rows: seq<Row>, p: Employee -> bool): (c: nat)
    ensures c <= |rows|
    ensures c == 0 <==> forall i :: 0 <= i < |rows| ==> !p(rows[i].emp)
  {
    if rows == [] then 0
    else (if p(rows[0].emp) then 1 else 0) + CountIf(rows[1..], p)
  }

  /** Counting rows is counting the keys of the dict: the ids are distinct. */
  lemma {:induction false} CountIfIsCardinality(order: seq<string>, emps: map<string, Employee>, p: Employee -> bool)
    requires Distinct(order)
    requires forall id :: id in order ==> id in emps
    ensures |set id | id in order && p(emps[id])| == CountIf(Items(order, emps), p)
  {
    if order != [] {
      DistinctTail(order);
      CountIfIsCardinality(order[1..], emps, p);
      CountIfItemsTail(order, emps, p);
      KeysWhereTail(order, emps, p);
    }
  }

  /** Counting the items of a non-empty order: the first one, then the rest. */
  lemma CountIfItemsTail(order: seq<string>, emps: map<string, Employee>, p: Employee -> bool)
    requires order != []
    requires forall id :: id in order ==> id in emps
    ensures CountIf(Items(order, emps), p) == (if p(emps[order[0]]) then 1 else 0) + CountIf(Items(order[1..], emps), p)
  {
    assert Items(order, emps)[1..] == Items(order[1..], emps);
  }

  /** The ids satisfying `p`: the first one if it does, and those of the rest. */
  lemma KeysWhereTail(order: seq<string>, emps: map<string, Employee>, p: Employee -> bool)
    requires order != [] && order[0] !in order[1..]
    requires forall id :: id in order ==> id in emps
    ensures |set id | id in order && p(emps[id])| ==
      (if p(emps[order[0]]) then 1 else 0) + |set id | id in order[1..] && p(emps[id])|
  {
    var whole := set id | id in order && p(emps[id]);
    var tail := set id | id in order[1..] && p(emps[id]);
    assert forall id :: id in order <==> id == order[0] || id in order[1..];
    if p(emps[order[0]]) {
      assert whole == tail + {order[0]};
    } else {
      assert whole == tail;
    }
  }

  /** The ids of a store whose record satisfies `p`, and how many there are. */
  lemma KeysWhereCount(order: seq<string>, emps: map<string, Employee>, p: Employee -> bool)
    requires WellFormed(order, emps)
    ensures |set id | id in emps && p(emps[id])| == CountIf(Items(order, emps), p)
  {
    CountIfIsCardinality(order, emps, p);
    assert (set id | id in emps && p(emps[id])) == (set id | id in order && p(emps[id]));
  }

  /** The number of active ids is the number of active rows. */
  lemma ActiveCount(order: seq<string>, emps: map<string, Employee>)
    requires WellFormed(order, emps)
    ensures |set id | id in emps && emps[id].active| == CountIf(Items(order, emps), IsActive)
  {
    var p: Employee -> bool := IsActive;
    KeysWhereCount(order, emps, p);
    var byP := set id | id in emps && p(emps[id]);
    var active := set id | id in emps && emps[id].active;
    assert byP == active by {
      forall id | id in active ensures id in byP {
        assert p(emps[id]);
      }
    }
  }

  /** The number of ids of department `d` is the number of its rows. */
  lemma DepartmentCount(order: seq<string>, emps: map<string, Employee>, d: string)
    requires WellFormed(order, emps)
    ensures |set id | id in emps && emps[id].department == d| == CountIf(Items(order, emps), InDepartment(d))
  {
    var p := InDepartment(d);
    KeysWhereCount(order, emps, p);
    assert forall e :: p(e) == (e.department == d);
    var byP := set id | id in emps && p(emps[id]);
    var inD := set id | id in emps && emps[id].department == d;
    assert byP == inD;
  }

  /** A well-formed store has exactly as many keys as its order has entries. */
  lemma StoreSize(order: seq<string>, emps: map<string, Employee>)
    requires WellFormed(order, emps)
    ensures |emps| == |order|
  {
    DistinctCard(order);
    assert emps.Keys == set id | id in order;
    assert |emps| == |emps.Keys|;
  }

  lemma {:induction false} DistinctCard(ids: seq<string>)
    requires Distinct(ids)
    ensures |set id | id in ids| == |ids|
  {
    if ids != [] {
      var rest := ids[1..];
      DistinctTail(ids);
      DistinctCard(rest);
      assert (set id | id in ids) == (set id | id in rest) + {ids[0]};
    }
  }

  /** `mark_inactive`'s loop: the ids are visited left to right and each one
      present in the dict has its `active` cleared. */
  function Deactivated(emps: map<string, Employee>, ids: seq<string>): (r: map<string, Employee>)
    ensures r.Keys == emps.Keys
    ensures forall id :: id in r ==>
      r[id] == emps[id].(active := emps[id].active && id !in ids)
    decreases |ids|
  {
    if ids == [] then emps
    else
      var once := if ids[0] in emps then emps[ids[0] := emps[ids[0]].(active := false)] else emps;
      Deactivated(once, ids[1..])
  }

  /** `update_salary`: only a present record changes, and only its salary. */
  function WithSalary(emps: map<string, Employee>, id: string, salary: int): (r: map<string, Employee>)
    ensures r.Keys == emps.Keys
    ensures forall k :: k in r && k != id ==> r[k] == emps[k]
    ensures id in emps ==> r[id] == emps[id].(salary := salary)
  {
    if id in emps then emps[id := emps[id].(salary := salary)] else emps
  }
}
