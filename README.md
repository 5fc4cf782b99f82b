# EmployeeDatabase in Dafny

A model of the `EmployeeDatabase` class of `EmplyeeDatabase.py`: an in-memory
employee store kept in a Python dict from employee id to a record with the
keys `name`, `department`, `salary` and `active`. Its operations are:

- the mutations `add_employee`, `mark_inactive` and `update_salary`, which change the dict in place;
- the direct reads `get_active_employees`, `get_employees_by_department` and `display_employees_names`;
- the table queries `avg_salary_bydep`, `highest_salary_dep`, `count_status` and `filter_employees`. Each of them first rebuilds a pandas table with `ConvToDataframe`.

The model's layers:

- `Records` (records.dfy) holds the values.
  - A dict keeps its keys in insertion order. So the store is a `map<string, Employee>` together with the `seq<string>` of its keys in that order, and `WellFormed` ties the two together.
  - `Items` is the dict's `items()`. It is also the row order of the table.
- `Queries` (queries.dfy) holds the read-only computations as functions of the rows.
- `Database` (database.dfy) is the class. Its fields are `employees` and `order`. It has methods for the mutations and `reads this` functions for the queries.
- `Strings` (strings.dfy) holds Python's string order, which decides the ties of `highest_salary_dep`, and `'-'.join` with its inverse `split('-')`.
- `Demo` (demo.dfy) holds the five records the script at the end of the file adds, and what the queries give on them.

How the model follows the code:

- **Empty store.** `ConvToDataframe` on an empty dict builds a table without columns, and its next line, `df['salary']`, raises `KeyError`. The model follows the code. On an empty store, `ConvToDataframe`, `count_status`, `filter_employees`, `avg_salary_bydep` and `highest_salary_dep` all give `Failure(KeyError("salary"))`. The natural design would give an empty mapping for the average and an error of its own for `highest_salary_dep`; the code does neither.
- **Ties in `highest_salary_dep`.** `groupby` sorts its keys and `idxmax` returns the first maximum. So among departments with equal totals, the one with the smallest name wins (`Strings.LexLess`).
- **Means.** They are exact rationals (`real`).
- **Salaries.** They are unbounded integers. The first entry of "## Left out" says what that leaves out.

## Model

| member | source | states |
|---|---|---|
| Database.EmployeeDatabase.constructor | EmplyeeDatabase.py:6-7 | a new store has no records and an empty order, and satisfies the store invariant |
| Database.EmployeeDatabase.AddEmployee | EmplyeeDatabase.py:10-16 | the dict maps `id` to a record built from the arguments, with the keyword defaults "Unknown", "N/A", 0 and false; every other entry is kept; a new id goes to the end of the order and a present one keeps its place; the invariant is kept |
| Database.EmployeeDatabase.MarkInactive | EmplyeeDatabase.py:30-33 | proved loop: the new dict is `Deactivated(old dict, ids)`, i.e. the same keys, every listed present record inactive, every other record unchanged, absent ids ignored; the order is unchanged |
| Database.EmployeeDatabase.UpdateSalary | EmplyeeDatabase.py:34-36 | the new dict is `WithSalary(old dict, id, salary)`: only a present record changes, and only its salary; an absent id is a no-op; the order is unchanged |
| Database.EmployeeDatabase.Rows | EmplyeeDatabase.py:39 | the table has one row per record: a row is in it exactly when its id maps to its record; it has as many rows as the dict has keys; its departments are those of the records |
| Database.EmployeeDatabase.ConvToDataframe | EmplyeeDatabase.py:38-43 | fails with `KeyError("salary")` exactly when the store is empty; otherwise the table has one row per record, and nothing else |
| Database.EmployeeDatabase.GetActiveEmployees | EmplyeeDatabase.py:26-27 | every returned record is active and in the store; every active record is returned; the length is the number of active ids; the list is an in-order selection from the records in insertion order. By `Queries.ActiveEmployeesUnique`, these clauses together fix the list: it is exactly the active records, in insertion order |
| Database.EmployeeDatabase.GetEmployeesByDepartment | EmplyeeDatabase.py:28-29 | an id is in the result exactly when it is in the store with that department; entries are the store's records; the size equals the group size in the table |
| Database.EmployeeDatabase.DisplayEmployeesNames | EmplyeeDatabase.py:21-23 | the line starts with "Employees: ", and an empty store shows the prefix alone; otherwise, after the prefix, each name stands at its offset in insertion order, with '-' between neighbours and nothing else (the length is the names' total length plus the separators); when no name holds '-', splitting the rest on '-' gives the names back |
| Database.EmployeeDatabase.CountStatus | EmplyeeDatabase.py:53-57 | fails with `KeyError("salary")` exactly on the empty store; otherwise the first count is the number of active ids, and the two counts add up to the number of records |
| Database.EmployeeDatabase.FilterEmployees | EmplyeeDatabase.py:58-67 | fails exactly on the empty store; otherwise the rows kept are in table order, and a row is kept exactly when it is a store entry that passes both tests (`Keeps`) |
| Database.EmployeeDatabase.AvgSalaryByDep | EmplyeeDatabase.py:44-46 | fails exactly on the empty store; otherwise the keys are the departments some record has, and each value is that department's mean salary |
| Database.EmployeeDatabase.HighestSalaryDep | EmplyeeDatabase.py:48-51 | fails exactly on the empty store; otherwise the result is a department of some record that is highest (`IsHighest`) |
| Database.DepartmentSetOfStore | EmplyeeDatabase.py:46 | the groups of the table are exactly the departments of the records |
| Database.ActiveEmployeesOfStore | EmplyeeDatabase.py:27 | the active rows of a well-formed store are its active records, one per active id |
| Database.AppendKeepsWellFormed | EmplyeeDatabase.py:11 | adding a new key at the end of the order keeps every key listed exactly once |
| Database.AddNewAppendsRow | EmplyeeDatabase.py:11 | adding a new id appends exactly one row, with the new record, to the table |
| Database.ReaddKeepsPosition | EmplyeeDatabase.py:11 | re-adding a present id replaces its row where it stands and leaves every other row alone |
| Database.MarkInactiveLowersActive | EmplyeeDatabase.py:30-33 | the active count drops by exactly the number of listed ids that were present and active, and no listed present id is among the active records afterwards |
| Database.DeactivatedActiveIds | EmplyeeDatabase.py:30-33 | the ids left active are the active ids minus the listed ones, so their number drops by the number of listed active ids |
| Database.UpdateSalaryKeepsStatus | EmplyeeDatabase.py:34-36 | a salary update leaves both `count_status` counts as they were |
| Database.UpdateSalaryShiftsTotal | EmplyeeDatabase.py:34-36 | a salary update shifts the total of the record's department by the change in salary, and leaves every other department's total alone |
| Records.KeySetMembers | EmplyeeDatabase.py:7 | an id is in the key set of an order exactly when the order lists it |
| Records.KeySetWellFormed | EmplyeeDatabase.py:7 | the class invariant (no repeats, key set equal to the dict's keys) holds exactly when the order is well-formed for the dict |
| Records.Items | EmplyeeDatabase.py:39 | the items have the order's length, and the i-th item is the i-th id with its record |
| Records.ItemsAreEntries | EmplyeeDatabase.py:39 | a row is among the items of a well-formed store exactly when it is one of the dict's entries |
| Records.CountIf | EmplyeeDatabase.py:55 | the count is at most the number of rows, and it is zero exactly when no row satisfies the test |
| Records.CountIfIsCardinality | EmplyeeDatabase.py:55 | counting matching rows counts the distinct ids whose records match |
| Records.KeysWhereCount | EmplyeeDatabase.py:55 | the number of keys of the dict whose record matches equals the number of matching rows |
| Records.ActiveCount | EmplyeeDatabase.py:55 | the number of active ids equals the number of active rows (the sum of the `active` column) |
| Records.DepartmentCount | EmplyeeDatabase.py:29 | the number of ids of a department equals the size of its group in the table |
| Records.StoreSize | EmplyeeDatabase.py:56 | the table has as many rows (`len(df)`) as the dict has keys |
| Records.Deactivated | EmplyeeDatabase.py:30-33 | the keys are unchanged, and each record ends inactive exactly when it was inactive or its id is listed, with its other fields unchanged |
| Records.WithSalary | EmplyeeDatabase.py:34-36 | the keys are unchanged, records of other ids are unchanged, and a present record gets the new salary with its other fields unchanged |
| Queries.Select | EmplyeeDatabase.py:62 | a boolean mask keeps exactly the rows that pass, in their order, and as many as pass |
| Queries.Values | EmplyeeDatabase.py:22 | one record per row, in row order (`dict.values()`) |
| Queries.ActiveEmployees | EmplyeeDatabase.py:26-27 | the result is the active records in row order: as many as the active rows, all active, every active row's record included |
| Queries.ActiveEmployeesUnique | EmplyeeDatabase.py:27 | an in-order selection of active records from the values with as many entries as there are active rows is exactly the list `ActiveEmployees` returns |
| Queries.ByDepartment | EmplyeeDatabase.py:28-29 | an id is in the result exactly when its record has that department; its entry is the store's record |
| Queries.ByUnknownDepartment | EmplyeeDatabase.py:29 | a department no record has gives the empty dict, not an error |
| Queries.Names | EmplyeeDatabase.py:22 | the names, one per row and in row order |
| Queries.JoinedNames | EmplyeeDatabase.py:23 | joining no names gives ""; otherwise each name stands at its offset in row order, with '-' between neighbours, and the length is the total length of the names plus the separators, so nothing else is there |
| Queries.JoinedNamesSplit | EmplyeeDatabase.py:22-23 | when no name holds '-', splitting the joined names on '-' gives the names back |
| Queries.CountStatus | EmplyeeDatabase.py:53-57 | the first count is the number of active rows, the second the number of inactive ones, and they add up to the number of rows |
| Queries.CountComplement | EmplyeeDatabase.py:56 | active and inactive rows together are all the rows |
| Queries.FilterEmployees | EmplyeeDatabase.py:58-67 | the rows kept are in table order, and a row is kept exactly when it passes `Keeps`: a threshold of 0 turns the salary test off and any other threshold needs a strictly larger salary; no department turns the department test off and any other needs an equal department |
| Queries.FilterDefaultsKeepAll | EmplyeeDatabase.py:58-67 | with both defaults the table comes back whole |
| Queries.DeptCount | EmplyeeDatabase.py:46 | the size of a department's group is at most the number of rows, and it is zero exactly when the department does not occur |
| Queries.DeptTotal | EmplyeeDatabase.py:50 | the grouped salary sum of a department; a department that does not occur sums to 0 |
| Queries.DeptMean | EmplyeeDatabase.py:46 | the mean of a department that occurs, times the size of its group, is its salary total |
| Queries.AvgSalaryByDep | EmplyeeDatabase.py:44-46 | one entry per department that occurs, and each value is that department's mean |
| Queries.DeptTotalBounds | EmplyeeDatabase.py:50 | when a department's salaries lie within [lo, hi], its total lies within [count·lo, count·hi] |
| Queries.AvgWithinSalaries | EmplyeeDatabase.py:46 | a department's mean lies between any lower and upper bound of its salaries |
| Queries.BestDepartment | EmplyeeDatabase.py:50-51 | the pick is a candidate; no candidate has a larger total; every other candidate with the same total has a larger name |
| Queries.Departments | EmplyeeDatabase.py:50 | one department per row, and exactly the departments that occur |
| Queries.HighestSalaryDep | EmplyeeDatabase.py:48-51 | `idxmax` of no groups fails; otherwise the result is highest: it occurs, no department has a larger total, and every other department with the same total has a larger name |
| Queries.HighestIsUnique | EmplyeeDatabase.py:50-51 | any department that is highest is the one returned, so the tie-break makes the answer unique |
| Strings.LexLess | EmplyeeDatabase.py:50 | Python's string `<`, against a reference definition: `a < b` exactly when `a` is a proper prefix of `b`, or at the end of their longest common prefix `a` has the smaller code point |
| Strings.CommonPrefix | EmplyeeDatabase.py:50 | the longest common prefix: both strings agree up to it, and they differ right after it unless one has ended |
| Strings.LexLessIrreflexive | EmplyeeDatabase.py:50 | no department name sorts before itself |
| Strings.LexLessTransitive | EmplyeeDatabase.py:50 | the sorted order of group keys is transitive |
| Strings.LexLessTotal | EmplyeeDatabase.py:50 | two different names are always ordered one way or the other |
| Strings.LexLessAsymmetric | EmplyeeDatabase.py:50 | two names never sort before each other |
| Strings.Join | EmplyeeDatabase.py:23 | `'-'.join`: each part stands at its offset with '-' between neighbours, and a join of n > 0 parts has their total length plus n − 1, so nothing else is in it |
| Strings.Split | EmplyeeDatabase.py:23 | the source never splits; this is the reference inverse of `'-'.join` (Python's `split('-')`), used only to state the round trip: never empty, no part holds '-', and joining the parts with '-' gives the string back |
| Strings.SplitJoin | EmplyeeDatabase.py:23 | splitting on '-' undoes joining with '-' when no part holds '-' and there is at least one part |
| Demo.BuildDemo | EmplyeeDatabase.py:146-150 | the five calls of the script give exactly the demo dict, in insertion order 101–105 |
| Demo.DemoRows | EmplyeeDatabase.py:146-150 | the table of that store is the five demo rows in insertion order |
| Demo.DemoTotals | EmplyeeDatabase.py:50 | the demo has the departments HR, ML and Intern, with totals 160000, 75000 and 30000 |
| Demo.DemoHighest | EmplyeeDatabase.py:48-51 | on the demo, the highest department is HR |
| Demo.DemoCountStatus | EmplyeeDatabase.py:53-57 | on the demo, `count_status` gives 4 active and 1 inactive |
| Demo.DemoGroupSizes | EmplyeeDatabase.py:46 | the demo groups have sizes 3 (HR), 1 (ML) and 1 (Intern) |
| Demo.DemoMeanHR | EmplyeeDatabase.py:46 | the HR mean is 160000/3 |
| Demo.DemoMeanML | EmplyeeDatabase.py:46 | the ML mean is 75000 |
| Demo.DemoMeanIntern | EmplyeeDatabase.py:46 | the Intern mean is 30000 |
| Demo.DemoAverages | EmplyeeDatabase.py:44-46 | on the demo, `avg_salary_bydep` has exactly the keys HR, ML and Intern, with means 160000/3, 75000 and 30000 |
| Demo.DemoFilter | EmplyeeDatabase.py:58-67 | on the five-record demo store, `filter_employees(salary_threshold=40000)` keeps rows 101, 102, 104 and 105, in that order, and drops 103 |

## Left out

- Queries.DeptTotal: does not model pandas' int64 arithmetic. When every salary fits in 64 bits, `from_dict` stores the `salary` column as int64, and the grouped `sum()` of line 50 wraps silently once a department's total passes 2^63 − 1. The model's totals never wrap, so `Queries.HighestSalaryDep` and `Database.EmployeeDatabase.HighestSalaryDep` can name a different department than the source on such input. Means are exact rationals, not float64, so their rounding is not modelled either.
- `ConvToDataframe`'s two extra columns `Annual_Bonus` (a float, 10% of the salary) and `Employment_Duration` (the constant 0). Lines 40-41 are modelled only for their one observable effect: on an empty table, indexing `salary` fails.
- `display_employees` and the printing in `display_employees_names`. They are output only. `DisplayEmployeesNames` returns the printed line instead.
- `export_to_csv`'s file writing. Its row selection is `filter_employees` and is modelled.
- `load_data` (reading a CSV file). It is file input.
- Both `visualize_data` definitions, `explore_data` and `summarize_data`. They only plot or print.
- `handle_missing_values`, `remove_duplicates`, `convert_data_types` and `add_features`. Each works on a fresh table and discards it, so the store is unchanged. What they print is output only.
- The rest of the script at the end of the file. The parts after the adds reload from CSV and print. This includes the final `export_to_csv` call at line 187, which works on the table reloaded from `employee_data.csv` and not on the five demo records.
- Database.EmployeeDatabase.GetActiveEmployees: returns record values. In the source, the returned dicts are the store's own objects, so a caller's later change to one would show in the store. The model does not capture that aliasing.
- Database.EmployeeDatabase.GetEmployeesByDepartment: returns record values, with the same aliasing caveat. The result is also a map, so the store's insertion order, in which the source's dict comprehension iterates, is not kept.
- Database.EmployeeDatabase.AvgSalaryByDep: the result is a map, so the sorted key order of the pandas Series is not kept. The means are exact rather than floating point.
- Database.EmployeeDatabase.FilterEmployees: table columns other than the record fields are not modelled.
- Values are not type-checked. The source accepts any Python value for a field. The model has strings for names and departments, an unbounded integer for the salary, and a boolean for the flag, so pandas' mixed-type behaviour is not modelled.
- Ids are not required to be non-empty, because the code does not check that.
- `Queries.HighestSalaryDep`'s `EmptyArgmax` failure cannot be reached from the class. The empty table fails earlier, with `KeyError`.
