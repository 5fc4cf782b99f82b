/**
 Queries: the read-only computations of the employee store, as functions of
 its rows (the dict's items in insertion order, which is also the row order
 of the table built by `ConvToDataframe`). None of them writes back to the
 store.
 */
module Queries {
  import opened Records
  import opened Strings

  /** `a` is `b` with some elements left out, the rest in the same order. */
  ghost predicate SubsequenceOf<T>(a: seq<T>, b: seq<T>)
    decreases |b|
  {
    if a == [] then true
    else if b == [] then false
    else (a[0] == b[0] && SubsequenceOf(a[1..], b[1..])) || SubsequenceOf(a, b[1..])
  }

  lemma {:induction false} SubsequenceTransitive<T>(a: seq<T>, b: seq<T>, c: seq<T>)
    requires SubsequenceOf(a, b) && SubsequenceOf(b, c)
    ensures SubsequenceOf(a, c)
    decreases |c|
  {
    if a != [] {
      assert b != [] && c != [];
      if b[0] == c[0] && SubsequenceOf(b[1..], c[1..]) {
        if a[0] == b[0] && SubsequenceOf(a[1..], b[1..]) {
          SubsequenceTransitive(a[1..], b[1..], c[1..]);
        } else {
          SubsequenceTransitive(a, b[1..], c[1..]);
        }
      } else {
        SubsequenceTransitive(a, b, c[1..]);
      }
    }
  }

  lemma {:induction false} SubsequenceMembers<T>(a: seq<T>, b: seq<T>)
    requires SubsequenceOf(a, b)
    ensures forall x :: x in a ==> x in b
    decreases |b|
  {
    if a != [] {
      if a[0] == b[0] && SubsequenceOf(a[1..], b[1..]) {
        SubsequenceMembers(a[1..], b[1..]);
        forall x | x in a ensures x in b {
          if x != a[0] {
            assert x in a[1..];
            assert x in b[1..];
          }
        }
      } else {
        SubsequenceMembers(a, b[1..]);
      }
    }
  }

  /** The records, in row order (`dict.values()`). */
  function Values(rows: seq<Row>): (r: seq<Employee>)
    ensures |r| == |rows|
    ensures forall i :: 0 <= i < |rows| ==> r[i] == rows[i].emp
  {
    if rows == [] then [] else [rows[0].emp] + Values(rows[1..])
  }

  /** The rows whose record satisfies `p`, in their order (a boolean mask on the table). */
  function Select(rows: seq<Row>, p: Employee -> bool): (r: seq<Row>)
    ensures |r| == CountIf(rows, p)
    ensures forall x :: x in r <==> x in rows && p(x.emp)
    ensures SubsequenceOf(r, rows)
  {
    if rows == [] then []
    else if p(rows[0].emp) then [rows[0]] + Select(rows[1..], p)
    else Select(rows[1..], p)
  }

  // ---------------------------------------------------------------------
  // get_active_employees, get_employees_by_department, display_employees_names

  /** `get_active_employees`: the active records, in insertion order. */
  function ActiveEmployees(rows: seq<Row>): (r: seq<Employee>)
    ensures |r| == CountIf(rows, IsActive)
    ensures forall e :: e in r ==> e.active
    ensures forall i :: 0 <= i < |rows| && rows[i].emp.active ==> rows[i].emp in r
    ensures SubsequenceOf(r, Values(rows))
  {
    if rows == [] then []
    else
      var rest := ActiveEmployees(rows[1..]);
      assert Values(rows)[1..] == Values(rows[1..]);
      assert forall i :: 1 <= i < |rows| ==> rows[i] == rows[1..][i - 1];
      if rows[0].emp.active then [rows[0].emp] + rest else rest
  }

  /** An in-order selection of active records from the values never holds
      more than the active rows. */
  lemma {:induction false} ActiveSelectionBound(rows: seq<Row>, r: seq<Employee>)
    requires SubsequenceOf(r, Values(rows))
    requires forall e :: e in r ==> e.active
    ensures |r| <= CountIf(rows, IsActive)
    decreases |rows|
  {
    if r != [] {
      var v := Values(rows);
      assert v[1..] == Values(rows[1..]);
      if r[0] == v[0] && SubsequenceOf(r[1..], v[1..]) {
        assert rows[0].emp.active;
        ActiveSelectionBound(rows[1..], r[1..]);
      } else {
        ActiveSelectionBound(rows[1..], r);
      }
    }
  }

  /** The contract of `ActiveEmployees` fixes the list: an in-order selection
      of active records from the values with as many entries as there are
      active rows is the list `ActiveEmployees` returns. */
  lemma {:induction false} ActiveEmployeesUnique(rows: seq<Row>, r: seq<Employee>)
    requires SubsequenceOf(r, Values(rows))
    requires forall e :: e in r ==> e.active
    requires |r| == CountIf(rows, IsActive)
    ensures r == ActiveEmployees(rows)
    decreases |rows|
  {
    if rows != [] {
      var v := Values(rows);
      assert v[1..] == Values(rows[1..]);
      var tail := ActiveEmployees(rows[1..]);
      if r != [] && r[0] == v[0] && SubsequenceOf(r[1..], v[1..]) {
        assert rows[0].emp.active;
        assert forall e :: e in r[1..] ==> e in r;
        ActiveEmployeesUnique(rows[1..], r[1..]);
        assert r == [r[0]] + r[1..];
      } else if r != [] {
        if rows[0].emp.active {
          ActiveSelectionBound(rows[1..], r);
          assert false;
        }
        ActiveEmployeesUnique(rows[1..], r);
      } else {
        assert CountIf(rows, IsActive) == 0;
        assert ActiveEmployees(rows) == [];
      }
    }
  }

  /** `get_employees_by_department`: the entries of department `d`. */
  function ByDepartment(emps: map<string, Employee>, d: string): (r: map<string, Employee>)
    ensures forall id :: id in r ==> id in emps && r[id] == emps[id] && r[id].department == d
    ensures forall id :: id in emps && emps[id].department == d ==> id in r
  {
    map id | id in emps && emps[id].department == d :: emps[id]
  }

  /** A department no record belongs to gives the empty dict, not an error. */
  lemma ByUnknownDepartment(emps: map<string, Employee>, d: string)
    requires forall id :: id in emps ==> emps[id].department != d
    ensures ByDepartment(emps, d) == map[]
  {
  }

  /** The names in the order the display joins them. */
  function Names(rows: seq<Row>): (r: seq<string>)
    ensures |r| == |rows|
    ensures forall i :: 0 <= i < |rows| ==> r[i] == rows[i].emp.name
  {
    if rows == [] then [] else [rows[0].emp.name] + Names(rows[1..])
  }

  /** `'-'.join` of the names in `display_employees_names`: each name at its
      offset, a '-' between neighbours, and nothing else. */
  function JoinedNames(rows: seq<Row>): (r: string)
    ensures rows == [] ==> r == ""
    ensures rows != [] ==> |r| == TotalLength(Names(rows)) + |rows| - 1
    ensures forall i :: 0 <= i < |rows| ==> PartAt(r, Names(rows), i)
  {
    Join(Names(rows))
  }

  /** When no name holds a '-', the displayed list can be split back into the names. */
  lemma JoinedNamesSplit(rows: seq<Row>)
    requires rows != []
    requires forall i :: 0 <= i < |rows| ==> Sep !in rows[i].emp.name
    ensures Split(JoinedNames(rows)) == Names(rows)
  {
    SplitJoin(Names(rows));
  }

  // ---------------------------------------------------------------------
  // count_status, filter_employees

  /** `count_status`: the sum of the `active` column, and the rest of the rows. */
  function CountStatus(rows: seq<Row>): (r: (nat, nat))
    ensures r.0 + r.1 == |rows|
    ensures r.0 == CountIf(rows, IsActive)
    ensures r.1 == CountIf(rows, (e: Employee) => !e.active)
  {
    var act := CountIf(rows, IsActive);
    CountComplement(rows);
    (act, |rows| - act)
  }

  lemma {:induction false} CountComplement(rows: seq<Row>)
    ensures CountIf(rows, IsActive) + CountIf(rows, (e: Employee) => !e.active) == |rows|
  {
    if rows != [] {
      CountComplement(rows[1..]);
    }
  }

  /** Whether `filter_employees` keeps a record: a threshold of 0 turns the
      salary test off, otherwise the salary must exceed it; no department
      turns the department test off, otherwise it must match exactly. */
  predicate Keeps(threshold: int, department: Option<string>, e: Employee)
  {
    && (threshold == 0 || e.salary > threshold)
    && (department.None? || e.department == department.value)
  }

  function AboveThreshold(threshold: int): Employee -> bool
  {
    (e: Employee) => e.salary > threshold
  }

  /** `filter_employees`: the salary mask, then the department mask. */
  function FilterEmployees(rows: seq<Row>, threshold: int, department: Option<string>): (r: seq<Row>)
    ensures SubsequenceOf(r, rows)
    ensures forall x :: x in r <==> x in rows && Keeps(threshold, department, x.emp)
  {
    var bySalary := if threshold != 0 then Select(rows, AboveThreshold(threshold)) else rows;
    var r := if department.Some? then Select(bySalary, InDepartment(department.value)) else bySalary;
    assert SubsequenceOf(r, rows) by {
      if threshold != 0 && department.Some? {
        SubsequenceTransitive(r, bySalary, rows);
      }
      if threshold == 0 && department.None? {
        SubsequenceReflexive(rows);
      }
    }
    r
  }

  lemma {:induction false} SubsequenceReflexive<T>(s: seq<T>)
    ensures SubsequenceOf(s, s)
  {
    if s != [] {
      SubsequenceReflexive(s[1..]);
    }
  }

  /** With both defaults nothing is filtered out. */
  lemma FilterDefaultsKeepAll(rows: seq<Row>)
    ensures FilterEmployees(rows, 0, None) == rows
  {
  }

  // ---------------------------------------------------------------------
  // Grouping by department: avg_salary_bydep, highest_salary_dep

  /** The departments that occur in the rows (the groups of `groupby('department')`). */
  function DepartmentSet(rows: seq<Row>): set<string>
  {
    set i | 0 <= i < |rows| :: rows[i].emp.department
  }

  /** The number of rows of department `d` (the size of its group): zero
      exactly for a department that does not occur. */
  function DeptCount(rows: seq<Row>, d: string): (n: nat)
    ensures n <= |rows|
    ensures n == 0 <==> d !in DepartmentSet(rows)
  {
    var p := InDepartment(d);
    assert forall i :: 0 <= i < |rows| ==> p(rows[i].emp) == (rows[i].emp.department == d);
    CountIf(rows, p)
  }

  /** The sum of the salaries of department `d`; a department that does not occur sums to 0. */
  function DeptTotal(rows: seq<Row>, d: string): (t: int)
    ensures d !in DepartmentSet(rows) ==> t == 0
  {
    if rows == [] then 0
    else
      assert d in DepartmentSet(rows[1..]) ==> d in DepartmentSet(rows) by {
        if d in DepartmentSet(rows[1..]) {
          var i :| 0 <= i < |rows[1..]| && rows[1..][i].emp.department == d;
          assert rows[i + 1].emp.department == d;
        }
      }
      (if rows[0].emp.department == d then rows[0].emp.salary else 0) + DeptTotal(rows[1..], d)
  }

  /** The mean salary of a department that occurs. */
  function DeptMean(rows: seq<Row>, d: string): (m: real)
    requires d in DepartmentSet(rows)
    ensures DeptCount(rows, d) > 0
    ensures m * DeptCount(rows, d) as real == DeptTotal(rows, d) as real
  {
    var n := DeptCount(rows, d) as real;
    DivTimes(DeptTotal(rows, d) as real, n);
    DeptTotal(rows, d) as real / n
  }

  lemma DivTimes(t: real, n: real)
    requires n != 0.0
    ensures (t / n) * n == t
  {
  }

  /** `avg_salary_bydep`: one entry per department that occurs, its mean salary. */
  function AvgSalaryByDep(rows: seq<Row>): (r: map<string, real>)
    ensures r.Keys == DepartmentSet(rows)
    ensures forall d :: d in r ==> r[d] == DeptMean(rows, d)
  {
    map d | d in DepartmentSet(rows) :: DeptMean(rows, d)
  }

  /** The salaries of department `d` bound its total. */
  lemma {:induction false} DeptTotalBounds(rows: seq<Row>, d: string, lo: int, hi: int)
    requires forall i :: 0 <= i < |rows| && rows[i].emp.department == d ==> lo <= rows[i].emp.salary <= hi
    ensures DeptCount(rows, d) * lo <= DeptTotal(rows, d) <= DeptCount(rows, d) * hi
  {
    if rows != [] {
      var rest := rows[1..];
      assert forall i :: 0 <= i < |rest| && rest[i].emp.department == d ==> lo <= rest[i].emp.salary <= hi by {
        forall i | 0 <= i < |rest| && rest[i].emp.department == d ensures lo <= rest[i].emp.salary <= hi {
          assert rest[i] == rows[i + 1];
        }
      }
      DeptTotalBounds(rest, d, lo, hi);
      var c := DeptCount(rest, d);
      assert DeptCount(rows, d) == (if InDepartment(d)(rows[0].emp) then 1 else 0) + c;
      if rows[0].emp.department == d {
        assert InDepartment(d)(rows[0].emp);
        MulStep(c, lo);
        MulStep(c, hi);
      } else {
        assert !InDepartment(d)(rows[0].emp);
      }
    }
  }

  lemma MulStep(c: int, x: int)
    ensures (c + 1) * x == c * x + x
  {
  }

  /** A department's average lies between its smallest and its largest salary. */
  lemma AvgWithinSalaries(rows: seq<Row>, d: string, lo: int, hi: int)
    requires d in DepartmentSet(rows)
    requires forall i :: 0 <= i < |rows| && rows[i].emp.department == d ==> lo <= rows[i].emp.salary <= hi
    ensures lo as real <= AvgSalaryByDep(rows)[d] <= hi as real
  {
    DeptTotalBounds(rows, d, lo, hi);
    MeanBounds(DeptTotal(rows, d), DeptCount(rows, d), lo, hi);
  }

  lemma MeanBounds(t: int, n: int, lo: int, hi: int)
    requires n > 0
    requires n * lo <= t <= n * hi
    ensures lo as real <= t as real / n as real <= hi as real
  {
    var m := t as real / n as real;
    assert m * n as real == t as real;
    assert (n * lo) as real == n as real * lo as real;
    assert (n * hi) as real == n as real * hi as real;
  }

  /** Department `a` comes before `b` in `idxmax` over the grouped sums:
      a larger total, or an equal total and a smaller name (groupby sorts
      its keys and idxmax returns the first maximum). */
  predicate Precedes(rows: seq<Row>, a: string, b: string)
  {
    DeptTotal(rows, a) > DeptTotal(rows, b) ||
    (DeptTotal(rows, a) == DeptTotal(rows, b) && LexLess(a, b))
  }

  /** The first maximum among the candidate departments. */
  function BestDepartment(rows: seq<Row>, cands: seq<string>): (r: string)
    requires cands != []
    ensures r in cands
    ensures forall d :: d in cands ==> DeptTotal(rows, d) <= DeptTotal(rows, r)
    ensures forall d :: d in cands && d != r && DeptTotal(rows, d) == DeptTotal(rows, r) ==> LexLess(r, d)
  {
    if |cands| == 1 then cands[0]
    else
      var a := cands[0];
      var b := BestDepartment(rows, cands[1..]);
      if Precedes(rows, a, b) then
        assert forall d :: d in cands[1..] && d != a && DeptTotal(rows, d) == DeptTotal(rows, a) ==> LexLess(a, d) by {
          forall d | d in cands[1..] && d != a && DeptTotal(rows, d) == DeptTotal(rows, a) ensures LexLess(a, d) {
            if d != b {
              LexLessTransitive(a, b, d);
            }
          }
        }
        a
      else
        assert a != b ==> DeptTotal(rows, a) == DeptTotal(rows, b) ==> LexLess(b, a) by {
          if a != b {
            LexLessTotal(a, b);
          }
        }
        b
  }

  /** The department of every row, in row order. */
  function Departments(rows: seq<Row>): (r: seq<string>)
    ensures |r| == |rows|
    ensures forall d :: d in r <==> d in DepartmentSet(rows)
  {
    if rows == [] then []
    else
      var r := [rows[0].emp.department] + Departments(rows[1..]);
      assert DepartmentSet(rows) == {rows[0].emp.department} + DepartmentSet(rows[1..]) by {
        forall d | d in DepartmentSet(rows) ensures d in {rows[0].emp.department} + DepartmentSet(rows[1..]) {
          var i :| 0 <= i < |rows| && rows[i].emp.department == d;
          if i > 0 {
            assert rows[1..][i - 1] == rows[i];
          }
        }
        forall d | d in DepartmentSet(rows[1..]) ensures d in DepartmentSet(rows) {
          var i :| 0 <= i < |rows[1..]| && rows[1..][i].emp.department == d;
          assert rows[i + 1] == rows[1..][i];
        }
      }
      r
  }

  /** `highest_salary_dep`: the department with the largest salary total,
      the smallest name among equal totals; idxmax of nothing fails. */
  function HighestSalaryDep(rows: seq<Row>): (r: Result<string>)
    ensures r.Failure? <==> rows == []
    ensures r.Failure? ==> r.error == EmptyArgmax
    ensures r.Success? ==> IsHighest(rows, r.value)
  {
    if rows == [] then Failure(EmptyArgmax)
    else Success(BestDepartment(rows, Departments(rows)))
  }

  /** `d` occurs, no department has a larger total, and every other one with
      the same total has a larger name. */
  ghost predicate IsHighest(rows: seq<Row>, d: string)
  {
    && d in DepartmentSet(rows)
    && (forall e :: e in DepartmentSet(rows) ==> DeptTotal(rows, e) <= DeptTotal(rows, d))
    && (forall e :: e in DepartmentSet(rows) && e != d && DeptTotal(rows, e) == DeptTotal(rows, d) ==> LexLess(d, e))
  }

  /** The tie-break makes the answer unique: the result is the only department
      that is highest. */
  lemma HighestIsUnique(rows: seq<Row>, d: string)
    requires IsHighest(rows, d)
    ensures HighestSalaryDep(rows) == Success(d)
  {
    var r := HighestSalaryDep(rows);
    assert rows != [];
    if r.value != d {
      LexLessAsymmetric(r.value, d);
    }
  }
}
