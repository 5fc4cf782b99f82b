/**
 Demo: the five records the script at the end of EmplyeeDatabase.py adds,
 and what the queries give on them.
 */
module Demo {
  import opened Records
  import opened Queries
  import Database

  const DemoOrder: seq<string> := ["101", "102", "103", "104", "105"]

  const Hisham := Employee("Hisham", "HR", 50000, true)
  const Dana := Employee("Dana", "ML", 75000, true)
  const Bassam := Employee("Bassam", "Intern", 30000, false)
  const Sarah := Employee("Sarah", "HR", 55000, true)
  const Dupl := Employee("Dupl", "HR", 55000, true)

  /** The dict after the five additions. */
  const DemoEmployees: map<string, Employee> :=
    map[]["101" := Hisham]["102" := Dana]["103" := Bassam]["104" := Sarah]["105" := Dupl]

  /** Its rows, in insertion order. */
  const DemoTable: seq<Row> :=
    [Row("101", Hisham), Row("102", Dana), Row("103", Bassam), Row("104", Sarah), Row("105", Dupl)]

  /** The script's five `add_employee` calls, through the class. */
  method BuildDemo() returns (db: Database.EmployeeDatabase)
    ensures fresh(db) && db.Valid()
    ensures db.order == DemoOrder && db.employees == DemoEmployees
  {
    db := new Database.EmployeeDatabase();
    db.AddEmployee("101", name := "Hisham", department := "HR", salary := 50000, active := true);
    db.AddEmployee("102", name := "Dana", department := "ML", salary := 75000, active := true);
    db.AddEmployee("103", name := "Bassam", department := "Intern", salary := 30000, active := false);
    db.AddEmployee("104", name := "Sarah", department := "HR", salary := 55000, active := true);
    db.AddEmployee("105", name := "Dupl", department := "HR", salary := 55000, active := true);
  }

  /** The table of the demo store is `DemoTable`. */
  lemma DemoRows()
    ensures Items(DemoOrder, DemoEmployees) == DemoTable
  {
    var rows := Items(DemoOrder, DemoEmployees);
    assert DemoEmployees["101"] == Hisham && DemoEmployees["102"] == Dana && DemoEmployees["103"] == Bassam;
    assert DemoEmployees["104"] == Sarah && DemoEmployees["105"] == Dupl;
    assert rows[0] == DemoTable[0] && rows[1] == DemoTable[1] && rows[2] == DemoTable[2];
    assert rows[3] == DemoTable[3] && rows[4] == DemoTable[4];
  }

  /** The departments of the demo, and their salary totals, summed from the last row back. */
  lemma DemoTotals()
    ensures DepartmentSet(DemoTable) == {"HR", "ML", "Intern"}
    ensures DeptTotal(DemoTable, "HR") == 160000
    ensures DeptTotal(DemoTable, "ML") == 75000
    ensures DeptTotal(DemoTable, "Intern") == 30000
  {
    var rows := DemoTable;
    assert DeptTotal(rows[4..], "HR") == 55000;
    assert DeptTotal(rows[3..], "HR") == 110000;
    assert DeptTotal(rows[2..], "HR") == 110000;
    assert DeptTotal(rows[1..], "HR") == 110000;
    assert DeptTotal(rows[4..], "ML") == 0;
    assert DeptTotal(rows[3..], "ML") == 0;
    assert DeptTotal(rows[2..], "ML") == 0;
    assert DeptTotal(rows[1..], "ML") == 75000;
    assert DeptTotal(rows[4..], "Intern") == 0;
    assert DeptTotal(rows[3..], "Intern") == 0;
    assert DeptTotal(rows[2..], "Intern") == 30000;
    assert DeptTotal(rows[1..], "Intern") == 30000;
    assert DepartmentSet(rows) == {"HR", "ML", "Intern"} by {
      assert rows[0].emp.department == "HR" && rows[1].emp.department == "ML" && rows[2].emp.department == "Intern";
    }
  }

  /** HR has the largest total (160000), so it is the highest department. */
  lemma DemoHighest()
    ensures HighestSalaryDep(DemoTable) == Success("HR")
  {
    DemoTotals();
    var rows := DemoTable;
    assert IsHighest(rows, "HR") by {
      forall e | e in DepartmentSet(rows) ensures DeptTotal(rows, e) < DeptTotal(rows, "HR") || e == "HR" {
        assert e == "HR" || e == "ML" || e == "Intern";
      }
    }
    HighestIsUnique(rows, "HR");
  }

  /** Four active records and one inactive. */
  lemma DemoCountStatus()
    ensures CountStatus(DemoTable) == (4, 1)
  {
    var rows := DemoTable;
    assert CountIf(rows[4..], IsActive) == 1;
    assert CountIf(rows[3..], IsActive) == 2;
    assert CountIf(rows[2..], IsActive) == 2;
    assert CountIf(rows[1..], IsActive) == 3;
  }

  /** HR's group has three rows, ML's and Intern's one each. */
  lemma DemoGroupSizes()
    ensures DeptCount(DemoTable, "HR") == 3
    ensures DeptCount(DemoTable, "ML") == 1
    ensures DeptCount(DemoTable, "Intern") == 1
  {
    var rows := DemoTable;
    assert CountIf(rows[4..], InDepartment("HR")) == 1;
    assert CountIf(rows[3..], InDepartment("HR")) == 2;
    assert CountIf(rows[2..], InDepartment("HR")) == 2;
    assert CountIf(rows[1..], InDepartment("HR")) == 2;
    assert CountIf(rows[4..], InDepartment("ML")) == 0;
    assert CountIf(rows[3..], InDepartment("ML")) == 0;
    assert CountIf(rows[2..], InDepartment("ML")) == 0;
    assert CountIf(rows[1..], InDepartment("ML")) == 1;
    assert CountIf(rows[4..], InDepartment("Intern")) == 0;
    assert CountIf(rows[3..], InDepartment("Intern")) == 0;
    assert CountIf(rows[2..], InDepartment("Intern")) == 1;
    assert CountIf(rows[1..], InDepartment("Intern")) == 1;
  }

  lemma DemoMeanHR()
    ensures "HR" in DepartmentSet(DemoTable) && DeptMean(DemoTable, "HR") == 160000.0 / 3.0
  {
    DemoTotals();
    DemoGroupSizes();
  }

  lemma DemoMeanML()
    ensures "ML" in DepartmentSet(DemoTable) && DeptMean(DemoTable, "ML") == 75000.0
  {
    DemoTotals();
    DemoGroupSizes();
  }

  lemma DemoMeanIntern()
    ensures "Intern" in DepartmentSet(DemoTable) && DeptMean(DemoTable, "Intern") == 30000.0
  {
    DemoTotals();
    DemoGroupSizes();
  }

  /** The means are 160000/3 for HR, 75000 for ML and 30000 for Intern. */
  lemma DemoAverages()
    ensures AvgSalaryByDep(DemoTable).Keys == {"HR", "ML", "Intern"}
    ensures AvgSalaryByDep(DemoTable)["HR"] == 160000.0 / 3.0
    ensures AvgSalaryByDep(DemoTable)["ML"] == 75000.0
    ensures AvgSalaryByDep(DemoTable)["Intern"] == 30000.0
  {
    DemoTotals();
    DemoMeanHR();
    DemoMeanML();
    DemoMeanIntern();
  }

  /** `filter_employees(salary_threshold=40000)` on the demo store keeps every row but 103's, in table order. */
  lemma DemoFilter()
    ensures FilterEmployees(DemoTable, 40000, None) == [DemoTable[0], DemoTable[1], DemoTable[3], DemoTable[4]]
  {
    var p := AboveThreshold(40000);
    assert p(Hisham) && p(Dana) && !p(Bassam) && p(Sarah) && p(Dupl);
    MaskDropsThird(DemoTable[0], DemoTable[1], DemoTable[2], DemoTable[3], DemoTable[4], p);
  }

  /** A mask over five rows that only the third one fails keeps the other four, in order. */
  lemma MaskDropsThird(a: Row, b: Row, c: Row, d: Row, e: Row, p: Employee -> bool)
    requires p(a.emp) && p(b.emp) && !p(c.emp) && p(d.emp) && p(e.emp)
    ensures Select([a, b, c, d, e], p) == [a, b, d, e]
  {
    assert [a] + [b, d, e] == [a, b, d, e] && [b] + [d, e] == [b, d, e] && [d] + [e] == [d, e] && [e] + [] == [e];
    assert Select([d, e], p) == [d, e] by {
      SelectStep([e], p, []);
      SelectStep([d, e], p, [e]);
    }
    assert Select([b, c, d, e], p) == [b, d, e] by {
      SelectStep([c, d, e], p, [d, e]);
      SelectStep([b, c, d, e], p, [d, e]);
    }
    SelectStep([a, b, c, d, e], p, [b, d, e]);
  }

  /** One row of a mask: the first row is kept exactly when it passes. */
  lemma SelectStep(rows: seq<Row>, p: Employee -> bool, rest: seq<Row>)
    requires rows != [] && Select(rows[1..], p) == rest
    ensures Select(rows, p) == if p(rows[0].emp) then [rows[0]] + rest else rest
  {
  }
}
