/**
 Database: the `EmployeeDatabase` class. Its one piece of state is the dict
 `employees` from employee id to record; `order` is the dict's insertion
 order, which Python keeps and which decides the order of every list and
 table the queries build. The mutations change the dict in place; the
 queries rebuild a table from it on every call and never write back.
 */
module Database {
  import opened Records
  import opened Strings
  import Queries

  /** The columns every record has, hence every non-empty table. */
  const SalaryColumn: string := "salary"

  class EmployeeDatabase {
    var employees: map<string, Employee>
    var order: seq<string>

    /** The order lists every key of the dict once; `KeySetWellFormed`
        relates this to `WellFormed`. */
    ghost predicate Valid()
      reads this
    {
      Distinct(order) && employees.Keys == KeySet(order)
    }

    /** `__init__`: an empty dict. */
    constructor ()
      ensures Valid()
      ensures employees == map[] && order == []
    {
      employees := map[];
      order := [];
    }

    /** `add_employee`: stores a new record under `id`, replacing any earlier
        one; a new id goes to the end of the order, a replaced one keeps
        its place. */
    method AddEmployee(id: string, name: string := DefaultName, department: string := DefaultDepartment,
                       salary: int := DefaultSalary, active: bool := DefaultActive)
      requires Valid()
      modifies this
      ensures Valid()
      ensures employees == old(employees)[id := Employee(name, department, salary, active)]
      ensures order == if id in old(employees) then old(order) else old(order) + [id]
    {
      KeySetWellFormed(order, employees);
      if id !in employees {
        AppendKeepsWellFormed(order, employees, id, Employee(name, department, salary, active));
        order := order + [id];
      }
      employees := employees[id := Employee(name, department, salary, active)];
      KeySetWellFormed(order, employees);
    }

    /** `mark_inactive`: every listed id that is present ends inactive;
        absent ids are skipped, and nothing else changes. */
    method MarkInactive(ids: seq<string>)
      requires Valid()
      modifies this
      ensures Valid()
      ensures employees == Deactivated(old(employees), ids)
      ensures order == old(order)
    {
      for i := 0 to |ids|
        invariant Deactivated(employees, ids[i..]) == Deactivated(old(employees), ids)
        invariant employees.Keys == old(employees).Keys
        invariant order == old(order)
      {
        assert ids[i..][0] == ids[i] && ids[i..][1..] == ids[i + 1..];
        if ids[i] in employees {
          employees := employees[ids[i] := employees[ids[i]].(active := false)];
        }
      }
      assert ids[|ids|..] == [];
    }

    /** `update_salary`: a present record gets the new salary; an absent id
        leaves the store as it was. */
    method UpdateSalary(id: string, newSalary: int)
      requires Valid()
      modifies this
      ensures Valid()
      ensures employees == WithSalary(old(employees), id, newSalary)
      ensures order == old(order)
    {
      if id in employees {
        employees := employees[id := employees[id].(salary := newSalary)];
      }
    }

    /** The dict's items in insertion order: the rows of the table. */
    function Rows(): (r: seq<Row>)
      reads this
      requires Valid()
      ensures |r| == |employees|
      ensures forall x :: x in r <==> x.id in employees && employees[x.id] == x.emp
      ensures Queries.DepartmentSet(r) == DepartmentsOf(employees)
    {
      KeySetWellFormed(order, employees);
      ItemsAreEntries(order, employees);
      DepartmentSetOfStore(order, employees);
      StoreSize(order, employees);
      Items(order, employees)
    }

    /** `ConvToDataframe`: one row per record, indexed by id. An empty dict
        gives a table without columns, and indexing its `salary` column fails. */
    function ConvToDataframe(): (r: Result<seq<Row>>)
      reads this
      requires Valid()
      ensures r.Failure? <==> employees == map[]
      ensures r.Failure? ==> r.error == KeyError(SalaryColumn)
      ensures r.Success? ==> |r.value| == |employees|
      ensures r.Success? ==> forall x :: x in r.value <==> x.id in employees && employees[x.id] == x.emp
    {
      if employees == map[] then Failure(KeyError(SalaryColumn)) else Success(Rows())
    }

    /** `get_active_employees`: the active records in insertion order, one per active id. */
    function GetActiveEmployees(): (r: seq<Employee>)
      reads this
      requires Valid()
      ensures forall e :: e in r ==> e.active && e in employees.Values
      ensures forall id :: id in employees && employees[id].active ==> employees[id] in r
      ensures |r| == |set id | id in employees && employees[id].active|
      ensures Queries.SubsequenceOf(r, Queries.Values(Rows()))
    {
      KeySetWellFormed(order, employees);
      ActiveEmployeesOfStore(order, employees);
      Queries.ActiveEmployees(Rows())
    }

    /** `get_employees_by_department`: the entries of department `d`; as
        many as the department's group in the table has rows. */
    function GetEmployeesByDepartment(d: string): (r: map<string, Employee>)
      reads this
      requires Valid()
      ensures forall id :: id in r <==> id in employees && employees[id].department == d
      ensures forall id :: id in r ==> r[id] == employees[id]
      ensures |r| == Queries.DeptCount(Rows(), d)
    {
      var r := Queries.ByDepartment(employees, d);
      KeySetWellFormed(order, employees);
      DepartmentCount(order, employees, d);
      assert r.Keys == set id | id in employees && employees[id].department == d;
      r
    }

    /** The line `display_employees_names` prints: the names in insertion
        order joined by '-', after the prefix. */
    function DisplayEmployeesNames(): (r: string)
      reads this
      requires Valid()
      ensures |NamesPrefix| <= |r| && r[..|NamesPrefix|] == NamesPrefix
      ensures employees == map[] ==> r == NamesPrefix
      ensures employees != map[] ==> |r| == |NamesPrefix| + TotalLength(Queries.Names(Rows())) + |employees| - 1
      ensures forall i :: 0 <= i < |Rows()| ==> PartAt(r[|NamesPrefix|..], Queries.Names(Rows()), i)
      ensures employees != map[] && (forall id :: id in employees ==> Sep !in employees[id].name) ==>
        Split(r[|NamesPrefix|..]) == Queries.Names(Rows())
    {
      var rows := Rows();
      var r := NamesPrefix + Queries.JoinedNames(rows);
      assert r[|NamesPrefix|..] == Queries.JoinedNames(rows);
      if employees != map[] && (forall id :: id in employees ==> Sep !in employees[id].name) then
        assert forall i :: 0 <= i < |rows| ==> Sep !in rows[i].emp.name by {
          forall i | 0 <= i < |rows| ensures Sep !in rows[i].emp.name {
            assert rows[i] in rows;
          }
        }
        Queries.JoinedNamesSplit(rows);
        r
      else
        r
    }

    /** `count_status`: how many records are active, and how many are not. */
    function CountStatus(): (r: Result<(nat, nat)>)
      reads this
      requires Valid()
      ensures r.Failure? <==> employees == map[]
      ensures r.Failure? ==> r.error == KeyError(SalaryColumn)
      ensures r.Success? ==> r.value.0 == |set id | id in employees && employees[id].active|
      ensures r.Success? ==> r.value.0 + r.value.1 == |employees|
    {
      var rows :- ConvToDataframe();
      KeySetWellFormed(order, employees);
      ActiveCount(order, employees);
      Success(Queries.CountStatus(rows))
    }

    /** `filter_employees`: the rows that pass both tests, in table order. */
    function FilterEmployees(threshold: int := 0, department: Option<string> := None): (r: Result<seq<Row>>)
      reads this
      requires Valid()
      ensures r.Failure? <==> employees == map[]
      ensures r.Failure? ==> r.error == KeyError(SalaryColumn)
      ensures r.Success? ==> Queries.SubsequenceOf(r.value, Rows())
      ensures r.Success? ==> forall x :: x in r.value <==>
        x.id in employees && employees[x.id] == x.emp && Queries.Keeps(threshold, department, x.emp)
    {
      var rows :- ConvToDataframe();
      Success(Queries.FilterEmployees(rows, threshold, department))
    }

    /** `avg_salary_bydep`: the mean salary of every department some record has. */
    function AvgSalaryByDep(): (r: Result<map<string, real>>)
      reads this
      requires Valid()
      ensures r.Failure? <==> employees == map[]
      ensures r.Failure? ==> r.error == KeyError(SalaryColumn)
      ensures r.Success? ==> r.value.Keys == DepartmentsOf(employees)
      ensures r.Success? ==> forall d :: d in r.value ==> r.value[d] == Queries.DeptMean(Rows(), d)
    {
      var rows :- ConvToDataframe();
      Success(Queries.AvgSalaryByDep(rows))
    }

    /** `highest_salary_dep`: the department with the largest salary total,
        the smallest name among equal totals. */
    function HighestSalaryDep(): (r: Result<string>)
      reads this
      requires Valid()
      ensures r.Failure? <==> employees == map[]
      ensures r.Failure? ==> r.error == KeyError(SalaryColumn)
      ensures r.Success? ==> r.value in DepartmentsOf(employees)
      ensures r.Success? ==> Queries.IsHighest(Rows(), r.value)
    {
      var rows :- ConvToDataframe();
      Queries.HighestSalaryDep(rows)
    }
  }

  /** The text `display_employees_names` puts before the names. */
  const NamesPrefix: string := "Employees: "

  /** The departments the records of a store have. */
  function DepartmentsOf(emps: map<string, Employee>): set<string>
  {
    set id | id in emps :: emps[id].department
  }

  lemma DepartmentSetOfStore(order: seq<string>, emps: map<string, Employee>)
    requires WellFormed(order, emps)
    ensures Queries.DepartmentSet(Items(order, emps)) == DepartmentsOf(emps)
  {
    var rows := Items(order, emps);
    forall d | d in DepartmentsOf(emps) ensures d in Queries.DepartmentSet(rows) {
      var id :| id in emps && emps[id].department == d;
      var i :| 0 <= i < |order| && order[i] == id;
      assert rows[i].emp.department == d;
    }
  }

  /** The active records of a store are its records with `active` set, one per active id. */
  lemma ActiveEmployeesOfStore(order: seq<string>, emps: map<string, Employee>)
    requires WellFormed(order, emps)
    ensures var r := Queries.ActiveEmployees(Items(order, emps));
      && (forall e :: e in r ==> e.active && e in emps.Values)
      && (forall id :: id in emps && emps[id].active ==> emps[id] in r)
      && |r| == |set id | id in emps && emps[id].active|
  {
    var rows := Items(order, emps);
    var r := Queries.ActiveEmployees(rows);
    var vs := Queries.Values(rows);
    Queries.SubsequenceMembers(r, vs);
    forall e | e in vs ensures e in emps.Values {
      var i :| 0 <= i < |rows| && vs[i] == e;
      assert emps[order[i]] == e;
    }
    forall id | id in emps && emps[id].active ensures emps[id] in r {
      var i :| 0 <= i < |order| && order[i] == id;
      assert rows[i].emp == emps[id];
    }
    ActiveCount(order, emps);
  }

  /** Appending a new id keeps the order a list of the keys without repeats. */
  lemma AppendKeepsWellFormed(order: seq<string>, emps: map<string, Employee>, id: string, e: Employee)
    requires WellFormed(order, emps)
    requires id !in emps
    ensures WellFormed(order + [id], emps[id := e])
  {
    var o := order + [id];
    forall i, j | 0 <= i < j < |o| ensures o[i] != o[j] {
      if j == |order| {
        assert o[i] == order[i];
        assert order[i] in emps;
      }
    }
  }

  /** Adding a new id appends one row to the table. */
  lemma AddNewAppendsRow(order: seq<string>, emps: map<string, Employee>, id: string, e: Employee)
    requires WellFormed(order, emps)
    requires id !in emps
    ensures Items(order + [id], emps[id := e]) == Items(order, emps) + [Row(id, e)]
  {
    var a := Items(order + [id], emps[id := e]);
    var b := Items(order, emps) + [Row(id, e)];
    assert |a| == |b|;
    forall i | 0 <= i < |a| ensures a[i] == b[i] {
      if i < |order| {
        assert order[i] != id;
      }
    }
  }

  /** Adding an id already present replaces its row where it stands. */
  lemma ReaddKeepsPosition(order: seq<string>, emps: map<string, Employee>, id: string, e: Employee)
    requires WellFormed(order, emps)
    requires id in emps
    ensures forall i :: 0 <= i < |order| ==>
      Items(order, emps[id := e])[i] == if order[i] == id then Row(id, e) else Items(order, emps)[i]
  {
  }

  /** If each row of `a` satisfying `p` lies beside a row of `b` satisfying it, `a` counts no more. */
  lemma {:induction false} CountIfMonotone(a: seq<Row>, b: seq<Row>, p: Employee -> bool)
    requires |a| == |b|
    requires forall i :: 0 <= i < |a| && p(a[i].emp) ==> p(b[i].emp)
    ensures CountIf(a, p) <= CountIf(b, p)
  {
    if a != [] {
      assert forall i :: 0 <= i < |a[1..]| && p(a[1..][i].emp) ==> p(b[1..][i].emp) by {
        forall i | 0 <= i < |a[1..]| && p(a[1..][i].emp) ensures p(b[1..][i].emp) {
          assert a[1..][i] == a[i + 1] && b[1..][i] == b[i + 1];
        }
      }
      CountIfMonotone(a[1..], b[1..], p);
    }
  }

  /** `mark_inactive` lowers the active count by the number of listed ids
      that were active, and no listed id is left active. */
  lemma MarkInactiveLowersActive(order: seq<string>, emps: map<string, Employee>, ids: seq<string>)
    requires WellFormed(order, emps)
    ensures var after := Deactivated(emps, ids);
      && CountIf(Items(order, after), IsActive) ==
         CountIf(Items(order, emps), IsActive) - |set id | id in ids && id in emps && emps[id].active|
      && (forall id :: id in ids && id in after ==> after[id] !in Queries.ActiveEmployees(Items(order, after)))
  {
    var after := Deactivated(emps, ids);
    assert WellFormed(order, after);
    ActiveCount(order, emps);
    ActiveCount(order, after);
    DeactivatedActiveIds(emps, ids);
  }

  /** The ids left active are the active ids that were not listed. */
  lemma DeactivatedActiveIds(emps: map<string, Employee>, ids: seq<string>)
    ensures var after := Deactivated(emps, ids);
      |set id | id in after && after[id].active| ==
      |set id | id in emps && emps[id].active| - |set id | id in ids && id in emps && emps[id].active|
  {
    var after := Deactivated(emps, ids);
    var before := set id | id in emps && emps[id].active;
    var left := set id | id in after && after[id].active;
    var listed := set id | id in ids && id in emps && emps[id].active;
    assert left == before - listed;
    assert (before - listed) + listed == before;
    assert (before - listed) * listed == {};
  }

  /** `update_salary` leaves the active and inactive counts as they were. */
  lemma UpdateSalaryKeepsStatus(order: seq<string>, emps: map<string, Employee>, id: string, salary: int)
    requires WellFormed(order, emps)
    ensures Queries.CountStatus(Items(order, WithSalary(emps, id, salary))) == Queries.CountStatus(Items(order, emps))
  {
    var a := Items(order, WithSalary(emps, id, salary));
    var b := Items(order, emps);
    var p: Employee -> bool := IsActive;
    forall i | 0 <= i < |a| ensures p(a[i].emp) == p(b[i].emp) {
      assert a[i].emp.active == b[i].emp.active;
    }
    CountIfMonotone(a, b, p);
    CountIfMonotone(b, a, p);
    var ca, cb := Queries.CountStatus(a), Queries.CountStatus(b);
    assert ca.0 == cb.0 && |a| == |b|;
    assert ca.1 == cb.1;
  }

  /** Rows for ids the update does not touch are the same rows. */
  lemma ItemsUntouched(order: seq<string>, emps: map<string, Employee>, id: string, salary: int)
    requires forall k :: k in order ==> k in emps
    requires id !in order
    ensures Items(order, WithSalary(emps, id, salary)) == Items(order, emps)
  {
    var a := Items(order, WithSalary(emps, id, salary));
    var b := Items(order, emps);
    assert |a| == |b|;
    forall i | 0 <= i < |a| ensures a[i] == b[i] {
      assert order[i] != id;
    }
  }

  /** `update_salary` moves the total of the record's department by the
      change in salary and leaves every other department's total alone. */
  lemma {:induction false} UpdateSalaryShiftsTotal(order: seq<string>, emps: map<string, Employee>, id: string, salary: int, d: string)
    requires Distinct(order)
    requires forall k :: k in order ==> k in emps
    requires id in order
    ensures Queries.DeptTotal(Items(order, WithSalary(emps, id, salary)), d) ==
      Queries.DeptTotal(Items(order, emps), d) + (if emps[id].department == d then salary - emps[id].salary else 0)
  {
    var after := WithSalary(emps, id, salary);
    var rest := order[1..];
    assert Items(order, after)[1..] == Items(rest, after);
    assert Items(order, emps)[1..] == Items(rest, emps);
    DistinctTail(order);
    if order[0] == id {
      ItemsUntouched(rest, emps, id, salary);
    } else {
      assert id in rest;
      UpdateSalaryShiftsTotal(rest, emps, id, salary, d);
    }
  }
}
