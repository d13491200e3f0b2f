/** Column-name normalisation in `main` of data_mockery.py: every column is renamed with
    each `.` replaced by `_`, then the five calendar columns are taken out of the list of
    names that is copied into the output unchanged. */
module Columns {
  import opened Outcomes

  /** `column.replace(".", "_")`: each dot becomes an underscore, every other character stays. */
  function Rename(name: string): (r: string)
    ensures |r| == |name| && '.' !in r
    ensures forall i :: 0 <= i < |name| ==> r[i] == (if name[i] == '.' then '_' else name[i])
    decreases |name|
  {
    if name == [] then [] else [if name[0] == '.' then '_' else name[0]] + Rename(name[1..])
  }

  /** Renaming twice is renaming once. */
  lemma RenameIdempotent(name: string)
    ensures Rename(Rename(name)) == Rename(name)
  {
    var once := Rename(name);
    assert forall i :: 0 <= i < |once| ==> Rename(once)[i] == once[i];
  }

  /** A name without a dot is left as it is. */
  lemma RenameKeepsDotless(name: string)
    requires '.' !in name
    ensures Rename(name) == name
  {
    assert forall i :: 0 <= i < |name| ==> Rename(name)[i] == name[i];
  }

  /** `df.withColumnRenamed(existing, newName)` on the list of column names: every column
      called `existing` takes the new name; without such a column nothing changes. */
  function WithColumnRenamed(columns: seq<string>, existing: string, newName: string): (r: seq<string>)
    ensures |r| == |columns|
    ensures forall j :: 0 <= j < |columns| ==>
      r[j] == (if columns[j] == existing then newName else columns[j])
    decreases |columns|
  {
    if columns == [] then []
    else [if columns[0] == existing then newName else columns[0]]
         + WithColumnRenamed(columns[1..], existing, newName)
  }

  /** Column j has been renamed, or is still as read. */
  ghost predicate RenamedOrRead(columns: seq<string>, renamed: seq<string>) {
    && |renamed| == |columns|
    && forall j :: 0 <= j < |columns| ==> renamed[j] == columns[j] || renamed[j] == Rename(columns[j])
  }

  /** Columns before `i` have been renamed. */
  ghost predicate RenamedBefore(columns: seq<string>, renamed: seq<string>, i: nat)
    requires |renamed| == |columns| && i <= |columns|
  {
    forall j :: 0 <= j < i ==> renamed[j] == Rename(columns[j])
  }

  /** One turn of the rename loop: renaming by the name of column i renames column i and
      can touch no other column except to give it its own final name. */
  lemma RenameStep(columns: seq<string>, renamed: seq<string>, i: nat)
    requires i < |columns| && RenamedOrRead(columns, renamed) && RenamedBefore(columns, renamed, i)
    ensures var next := WithColumnRenamed(renamed, columns[i], Rename(columns[i]));
      RenamedOrRead(columns, next) && RenamedBefore(columns, next, i + 1)
  {
    var column := columns[i];
    var next := WithColumnRenamed(renamed, column, Rename(column));
    forall j | 0 <= j < |columns|
      ensures next[j] == columns[j] || next[j] == Rename(columns[j])
      ensures j <= i ==> next[j] == Rename(columns[j])
    {
      if renamed[j] == column {
        assert next[j] == Rename(column);
        if renamed[j] != columns[j] {
          RenameIdempotent(columns[j]);
        }
      } else {
        assert next[j] == renamed[j];
      }
    }
  }

  /** The loop `for column in dfcols: df = df.withColumnRenamed(column, column.replace(".", "_"))`.
      Although each step renames by name, the outcome is the per-column rename: column j
      ends up as `Rename(columns[j])`, whatever repetitions or collisions the names have. */
  method RenameColumns(columns: seq<string>) returns (renamed: seq<string>)
    ensures |renamed| == |columns|
    ensures forall j :: 0 <= j < |columns| ==> renamed[j] == Rename(columns[j])
  {
    renamed := columns;
    for i := 0 to |columns|
      invariant RenamedOrRead(columns, renamed)
      invariant RenamedBefore(columns, renamed, i)
    {
      RenameStep(columns, renamed, i);
      renamed := WithColumnRenamed(renamed, columns[i], Rename(columns[i]));
    }
  }

  // ----- list.remove -----

  /** `xs.remove(x)`: drops the first occurrence of `x`; raises ValueError when there is none. */
  function RemoveFirst(xs: seq<string>, x: string): (r: Result<seq<string>>)
    ensures r.Err? <==> x !in xs
    ensures r.Err? ==> r.error == ValueError(x)
    ensures r.Ok? ==> |r.value| == |xs| - 1 && multiset(r.value) == multiset(xs) - multiset{x}
    decreases |xs|
  {
    if xs == [] then Err(ValueError(x))
    else
      assert xs == [xs[0]] + xs[1..];
      if xs[0] == x then Ok(xs[1..])
      else
        match RemoveFirst(xs[1..], x)
        case Err(e) => Err(e)
        case Ok(rest) => Ok([xs[0]] + rest)
  }

  /** The occurrence removed is the first one: everything before it and after it stays, in order. */
  lemma {:induction false} RemoveFirstAt(xs: seq<string>, x: string, i: nat)
    requires i < |xs| && xs[i] == x && x !in xs[..i]
    ensures RemoveFirst(xs, x) == Ok(xs[..i] + xs[i + 1..])
    decreases i
  {
    if i > 0 {
      var tail := xs[1..];
      assert xs[0] != x by {
        assert xs[0] == xs[..i][0];
      }
      assert tail[..i - 1] == xs[1..i];
      assert tail[i - 1] == x;
      RemoveFirstAt(tail, x, i - 1);
      assert tail[i..] == xs[i + 1..];
      assert RemoveFirst(xs, x) == Ok([xs[0]] + (xs[1..i] + xs[i + 1..]));
      assert [xs[0]] + (xs[1..i] + xs[i + 1..]) == xs[..i] + xs[i + 1..];
    } else {
      assert xs[..0] + xs[1..] == xs[1..];
    }
  }

  /** The names left after taking out those in `names`, in their original order. */
  function Without(xs: seq<string>, names: set<string>): (r: seq<string>)
    ensures forall y :: y in r <==> y in xs && y !in names
    decreases |xs|
  {
    if xs == [] then []
    else (if xs[0] in names then [] else [xs[0]]) + Without(xs[1..], names)
  }

  /** Removing a name from `names` leaves the other names in the same order. */
  lemma {:induction false} RemoveFirstKeepsOthers(xs: seq<string>, x: string, names: set<string>)
    requires x in names && RemoveFirst(xs, x).Ok?
    ensures Without(RemoveFirst(xs, x).value, names) == Without(xs, names)
    decreases |xs|
  {
    if xs[0] != x {
      var rest := RemoveFirst(xs[1..], x).value;
      RemoveFirstKeepsOthers(xs[1..], x, names);
      assert ([xs[0]] + rest)[1..] == rest;
    }
  }

  // ----- The five calendar columns -----

  /** The columns that are regenerated, in the order `main` removes them. */
  const CalendarColumns: seq<string> :=
    ["Week_Day", "Calendar_Year", "Year_Half", "Half_Quarter", "Quarter_Week"]

  const CalendarNames: set<string> := set c | c in CalendarColumns

  /** `xs.remove(n)` for each `n` of `names` in turn; the first failure is raised. */
  function RemoveEach(xs: seq<string>, names: seq<string>): (r: Result<seq<string>>)
    ensures r.Ok? ==> |r.value| == |xs| - |names|
    ensures r.Err? ==> r.error.ValueError? && r.error.name in names
    decreases |names|
  {
    if names == [] then Ok(xs)
    else
      match RemoveFirst(xs, names[0])
      case Err(e) => Err(e)
      case Ok(rest) => RemoveEach(rest, names[1..])
  }

  lemma SubtractInTurn(all: multiset<string>, rest: multiset<string>, left: multiset<string>,
                       head: string, tail: multiset<string>, names: multiset<string>)
    requires rest == all - multiset{head} && left == rest - tail && names == multiset{head} + tail
    ensures left == all - names
  {
    forall y
      ensures left[y] == (all - names)[y]
    {
    }
  }

  lemma MultisetOfCons(names: seq<string>)
    requires names != []
    ensures multiset(names) == multiset{names[0]} + multiset(names[1..])
  {
    assert names == [names[0]] + names[1..];
  }

  lemma RemoveEachStep(xs: seq<string>, names: seq<string>)
    requires names != [] && RemoveEach(xs, names).Ok?
    ensures RemoveFirst(xs, names[0]).Ok?
    ensures RemoveEach(xs, names) == RemoveEach(RemoveFirst(xs, names[0]).value, names[1..])
  {
  }

  /** The removals take away one copy of each name, and nothing else. */
  lemma {:induction false} RemoveEachMultiset(xs: seq<string>, names: seq<string>)
    requires RemoveEach(xs, names).Ok?
    ensures multiset(RemoveEach(xs, names).value) == multiset(xs) - multiset(names)
    decreases |names|
  {
    if names != [] {
      RemoveEachStep(xs, names);
      var head, tail := names[0], names[1..];
      var rest := RemoveFirst(xs, head).value;
      var left := RemoveEach(rest, tail).value;
      RemoveEachMultiset(rest, tail);
      MultisetOfCons(names);
      SubtractInTurn(multiset(xs), multiset(rest), multiset(left), head, multiset(tail), multiset(names));
    }
  }

  /** A name other than the one removed is present afterwards exactly when it was before. */
  lemma RemoveFirstOthersPresent(xs: seq<string>, x: string, y: string)
    requires RemoveFirst(xs, x).Ok? && y != x
    ensures y in RemoveFirst(xs, x).value <==> y in xs
  {
    assert multiset(RemoveFirst(xs, x).value)[y] == multiset(xs)[y];
  }

  /** Removing the first of distinct names changes nothing about whether the others are present. */
  lemma RemoveHeadKeepsTail(xs: seq<string>, names: seq<string>)
    requires names != [] && forall a, b :: 0 <= a < b < |names| ==> names[a] != names[b]
    requires RemoveFirst(xs, names[0]).Ok?
    ensures var rest := RemoveFirst(xs, names[0]).value;
      forall k :: 0 <= k < |names[1..]| ==> (names[1..][k] in rest <==> names[1..][k] in xs)
  {
    var rest := RemoveFirst(xs, names[0]).value;
    forall k | 0 <= k < |names[1..]|
      ensures names[1..][k] in rest <==> names[1..][k] in xs
    {
      assert names[1..][k] == names[k + 1] != names[0];
      RemoveFirstOthersPresent(xs, names[0], names[1..][k]);
    }
  }

  /** With distinct names, the removals succeed exactly when every name is present, and a
      failure names a column that is missing from the original list. */
  lemma {:induction false} RemoveEachSucceeds(xs: seq<string>, names: seq<string>)
    requires forall a, b :: 0 <= a < b < |names| ==> names[a] != names[b]
    ensures RemoveEach(xs, names).Ok? <==> forall k :: 0 <= k < |names| ==> names[k] in xs
    ensures RemoveEach(xs, names).Err? ==>
      RemoveEach(xs, names).error.ValueError? && RemoveEach(xs, names).error.name !in xs
    decreases |names|
  {
    if names != [] && names[0] in xs {
      var rest := RemoveFirst(xs, names[0]).value;
      var tail := names[1..];
      RemoveHeadKeepsTail(xs, names);
      RemoveEachSucceeds(rest, tail);
      assert RemoveEach(xs, names) == RemoveEach(rest, tail);
      if RemoveEach(rest, tail).Err? {
        var k :| 0 <= k < |tail| && RemoveEach(rest, tail).error.name == tail[k];
      }
      assert forall k :: 0 <= k < |tail| ==> tail[k] == names[k + 1];
    }
  }

  /** The removals keep every other column, in its original order. */
  lemma {:induction false} RemoveEachKeepsOthers(xs: seq<string>, names: seq<string>, taken: set<string>)
    requires forall k :: 0 <= k < |names| ==> names[k] in taken
    requires RemoveEach(xs, names).Ok?
    ensures Without(RemoveEach(xs, names).value, taken) == Without(xs, taken)
    decreases |names|
  {
    if names != [] {
      var rest := RemoveFirst(xs, names[0]).value;
      RemoveFirstKeepsOthers(xs, names[0], taken);
      RemoveEachKeepsOthers(rest, names[1..], taken);
    }
  }

  /** The five `rest_of_teh_columns.remove(...)` calls. */
  function DropCalendarColumns(columns: seq<string>): (r: Result<seq<string>>)
    ensures r.Ok? ==> |r.value| == |columns| - 5
    ensures r.Err? ==> r.error.ValueError? && r.error.name in CalendarNames
  {
    RemoveEach(columns, CalendarColumns)
  }

  lemma CalendarColumnsDistinct()
    ensures |CalendarColumns| == 5
    ensures forall a, b :: 0 <= a < b < |CalendarColumns| ==> CalendarColumns[a] != CalendarColumns[b]
  {
    assert CalendarColumns[0][0] == 'W' && CalendarColumns[1][0] == 'C' && CalendarColumns[2][0] == 'Y';
    assert CalendarColumns[3][0] == 'H' && CalendarColumns[4][0] == 'Q';
  }

  /** Taking out the calendar columns fails exactly when one of them is missing, and then
      with the ValueError of a missing one. */
  lemma DropCalendarColumnsFails(columns: seq<string>)
    ensures DropCalendarColumns(columns).Ok? <==>
      forall k :: 0 <= k < |CalendarColumns| ==> CalendarColumns[k] in columns
    ensures DropCalendarColumns(columns).Err? ==>
      DropCalendarColumns(columns).error.ValueError? &&
      DropCalendarColumns(columns).error.name !in columns
  {
    CalendarColumnsDistinct();
    RemoveEachSucceeds(columns, CalendarColumns);
  }

  /** When it succeeds, one copy of each calendar column is gone and every other column is
      kept, in its original order. */
  lemma DropCalendarColumnsKeeps(columns: seq<string>)
    requires DropCalendarColumns(columns).Ok?
    ensures var rest := DropCalendarColumns(columns).value;
      && |rest| == |columns| - 5
      && multiset(rest) == multiset(columns) - multiset(CalendarColumns)
      && Without(rest, CalendarNames) == Without(columns, CalendarNames)
  {
    CalendarColumnsDistinct();
    RemoveEachKeepsOthers(columns, CalendarColumns, CalendarNames);
    RemoveEachMultiset(columns, CalendarColumns);
  }

  lemma {:induction false} WithoutNothingToTake(xs: seq<string>, names: set<string>)
    requires forall y :: y in names ==> y !in xs
    ensures Without(xs, names) == xs
    decreases |xs|
  {
    if xs != [] {
      WithoutNothingToTake(xs[1..], names);
      assert [xs[0]] + xs[1..] == xs;
    }
  }

  lemma {:induction false} DistinctOnce(names: seq<string>, c: nat)
    requires forall a, b :: 0 <= a < b < |names| ==> names[a] != names[b]
    requires c < |names|
    ensures multiset(names)[names[c]] == 1
    decreases |names|
  {
    assert names == [names[0]] + names[1..];
    if c == 0 {
      assert names[0] !in names[1..];
    } else {
      DistinctOnce(names[1..], c - 1);
    }
  }

  /** Removing distinct names that each occur exactly once leaves the list without them. */
  lemma RemoveEachExact(xs: seq<string>, names: seq<string>, taken: set<string>)
    requires forall a, b :: 0 <= a < b < |names| ==> names[a] != names[b]
    requires forall y :: y in taken <==> y in names
    requires forall k :: 0 <= k < |names| ==> multiset(xs)[names[k]] == 1
    ensures RemoveEach(xs, names) == Ok(Without(xs, taken))
  {
    RemoveEachSucceeds(xs, names);
    RemoveEachKeepsOthers(xs, names, taken);
    RemoveEachMultiset(xs, names);
    var rest := RemoveEach(xs, names).value;
    forall y | y in taken
      ensures y !in rest
    {
      var k :| 0 <= k < |names| && names[k] == y;
      DistinctOnce(names, k);
      assert multiset(rest)[y] == 0;
    }
    WithoutNothingToTake(rest, taken);
  }

  /** When each calendar column occurs exactly once, as in the data set's header, the result
      is precisely the list without them. */
  lemma DropCalendarColumnsExact(columns: seq<string>)
    requires forall k :: 0 <= k < |CalendarColumns| ==> multiset(columns)[CalendarColumns[k]] == 1
    ensures DropCalendarColumns(columns) == Ok(Without(columns, CalendarNames))
  {
    CalendarColumnsDistinct();
    RemoveEachExact(columns, CalendarColumns, CalendarNames);
  }

  /** Removing the names at the head of the list, in order, leaves the rest of the list. */
  lemma RemoveEachHead(xs: seq<string>, names: seq<string>)
    requires xs != [] && names != [] && xs[0] == names[0]
    ensures RemoveEach(xs, names) == RemoveEach(xs[1..], names[1..])
  {
    assert RemoveFirst(xs, names[0]) == Ok(xs[1..]);
  }

  lemma {:induction false} RemoveEachPrefix(xs: seq<string>, names: seq<string>)
    requires |names| <= |xs| && forall k :: 0 <= k < |names| ==> xs[k] == names[k]
    ensures RemoveEach(xs, names) == Ok(xs[|names|..])
    decreases |names|
  {
    if names != [] {
      var xs', names' := xs[1..], names[1..];
      assert forall k :: 0 <= k < |names'| ==> xs'[k] == names'[k] by {
        assert forall k :: 0 <= k < |names'| ==> xs'[k] == xs[k + 1] && names'[k] == names[k + 1];
      }
      RemoveEachHead(xs, names);
      RemoveEachPrefix(xs', names');
      assert xs'[|names'|..] == xs[|names|..];
    }
  }

  /** The header of the sales data set, as its schema lists it. */
  const DocumentedSchema: seq<string> := [
    "Week.Day", "Calendar.Year", "Year.Half", "Half.Quarter", "Quarter.Week",
    "ProductType.Product", "LOB.ProductType", "Brand.LOB", "Products.Brand", "State.City",
    "[skip]10", "Country.State", "Currency", "Country[uda]", "Area.Country", "MFGRegion.Area",
    "MFG.MFGRegion", "Departments.Department", "Department.Office", "Segment.Customer",
    "CustRegion.Segment", "Customer.CustomerType[attr]", "Customers.CustRegion", "[skip]23",
    "Profit Ratio", "Profit Margin", "Final Revenue", "Final Discount"]

  /** On the documented header, renaming turns the five leading calendar columns into the
      names that are then removed, so the removals succeed and keep the other 23 columns in
      order. */
  lemma DocumentedSchemaDrops(renamed: seq<string>)
    requires |renamed| == |DocumentedSchema|
    requires forall j :: 0 <= j < |renamed| ==> renamed[j] == Rename(DocumentedSchema[j])
    ensures DropCalendarColumns(renamed) == Ok(renamed[5..]) && |renamed[5..]| == 23
  {
    forall k | 0 <= k < 5
      ensures renamed[k] == CalendarColumns[k]
    {
      RenamedCalendarColumn(k);
    }
    RemoveEachPrefix(renamed, CalendarColumns);
  }

  /** The five dotted calendar columns of the header rename to the five removed names. */
  lemma RenamedCalendarColumn(k: nat)
    requires k < 5
    ensures Rename(DocumentedSchema[k]) == CalendarColumns[k]
  {
    assert DocumentedSchema[k] == ["Week.Day", "Calendar.Year", "Year.Half", "Half.Quarter", "Quarter.Week"][k];
    if k == 0 {
      RenamedWeekDay();
    } else if k == 1 {
      RenamedCalendarYear();
    } else if k == 2 {
      RenamedYearHalf();
    } else if k == 3 {
      RenamedHalfQuarter();
    } else {
      RenamedQuarterWeek();
    }
  }

  lemma RenamedWeekDay() ensures Rename("Week.Day") == "Week_Day" {
    RenameOne("Week.Day", "Week_Day");
  }

  lemma RenamedCalendarYear() ensures Rename("Calendar.Year") == "Calendar_Year" {
    RenameOne("Calendar.Year", "Calendar_Year");
  }

  lemma RenamedYearHalf() ensures Rename("Year.Half") == "Year_Half" {
    RenameOne("Year.Half", "Year_Half");
  }

  lemma RenamedHalfQuarter() ensures Rename("Half.Quarter") == "Half_Quarter" {
    RenameOne("Half.Quarter", "Half_Quarter");
  }

  lemma RenamedQuarterWeek() ensures Rename("Quarter.Week") == "Quarter_Week" {
    RenameOne("Quarter.Week", "Quarter_Week");
  }

  lemma RenameOne(name: string, expected: string)
    requires |name| == |expected|
    requires forall i :: 0 <= i < |name| ==> expected[i] == (if name[i] == '.' then '_' else name[i])
    ensures Rename(name) == expected
  {
  }
}
