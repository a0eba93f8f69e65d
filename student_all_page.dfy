/**
 * The admin student list page: the school choices, the client-side filter
 * and sort of the loaded rows, and the sort-column controls.
 */
module StudentAllPage {
  import opened Domain
  import Age
  import Text
  import Lists

  datatype SortColumn = ByName | ByAge
  datatype SortOrder = Asc | Desc

  function Flip(o: SortOrder): (r: SortOrder)
    ensures r != o
  {
    if o == Asc then Desc else Asc
  }

  /** The distinct `current_school` values of the rows. */
  function SchoolSet(items: seq<Student>): set<string> {
    set s | s in items :: s.school
  }

  /**
   * `schools`: every distinct `current_school` exactly once, collected into a
   * set in first-seen order and then sorted.
   */
  method Schools(items: seq<Student>) returns (r: seq<string>)
    ensures forall x :: multiset(r)[x] == if x in SchoolSet(items) then 1 else 0
    ensures forall i, j :: 0 <= i < j < |r| ==> Text.LexLeq(r[i], r[j])
  {
    var seen: set<string> := {};
    var inOrder: seq<string> := [];
    for i := 0 to |items|
      invariant seen == SchoolSet(items[..i])
      invariant forall x :: multiset(inOrder)[x] == if x in seen then 1 else 0
    {
      assert items[..i + 1] == items[..i] + [items[i]];
      var school := items[i].school;
      if school !in seen {
        seen := seen + {school};
        inOrder := inOrder + [school];
      }
    }
    assert items[..|items|] == items;
    var leq := (x: string, y: string) => Text.LexLeq(x, y);
    forall x, y ensures leq(x, y) || leq(y, x) {
      Text.LexLeqTotal(x, y);
    }
    forall x, y, z | leq(x, y) && leq(y, z) ensures leq(x, z) {
      Text.LexLeqTransitive(x, y, z);
    }
    r := Lists.SortedCopy(inOrder, leq);
  }

  /** No school is listed twice. */
  lemma SchoolsDistinct(r: seq<string>, items: seq<Student>)
    requires forall x :: multiset(r)[x] == if x in SchoolSet(items) then 1 else 0
    ensures forall i, j :: 0 <= i < j < |r| ==> r[i] != r[j]
  {
    forall i, j | 0 <= i < j < |r|
      ensures r[i] != r[j]
    {
      assert r == r[..i] + [r[i]] + r[i + 1..j] + [r[j]] + r[j + 1..];
      assert multiset(r)[r[i]] <= 1;
    }
  }

  /** The school filter: exact match when a school is selected. */
  function BySchool(list: seq<Student>, school: string): (r: seq<Student>)
    ensures school == "" ==> r == list
    ensures school != "" ==> forall s :: s in r <==> s in list && s.school == school
    ensures school != "" ==> forall s :: multiset(r)[s] == if s.school == school then multiset(list)[s] else 0
    ensures multiset(r) <= multiset(list)
  {
    if school == "" then list else Lists.Filter(list, (s: Student) => s.school == school)
  }

  /** The search: the trimmed, lower-cased query as a substring of a lower-cased field. */
  predicate MatchesText(s: Student, qx: string) {
    || Text.Contains(Text.Lower(s.id), qx)
    || Text.Contains(Text.Lower(s.fname), qx)
    || Text.Contains(Text.Lower(s.lname), qx)
    || Text.Contains(Text.Lower(s.email), qx)
  }

  function NormalizedQuery(q: string): string {
    Text.Lower(Text.Trim(q))
  }

  function ByQuery(list: seq<Student>, q: string): (r: seq<Student>)
    ensures NormalizedQuery(q) == "" ==> r == list
    ensures NormalizedQuery(q) != "" ==> forall s :: s in r <==> s in list && MatchesText(s, NormalizedQuery(q))
    ensures NormalizedQuery(q) != "" ==>
      forall s :: multiset(r)[s] == if MatchesText(s, NormalizedQuery(q)) then multiset(list)[s] else 0
    ensures multiset(r) <= multiset(list)
  {
    var qx := NormalizedQuery(q);
    if qx == "" then list else Lists.Filter(list, (s: Student) => MatchesText(s, qx))
  }

  datatype Aged = Aged(student: Student, age: int)

  /** `withAge`: each row decorated with its age. */
  function Decorate(list: seq<Student>, today: Date): (r: seq<Aged>)
    ensures |r| == |list|
    ensures forall i :: 0 <= i < |list| ==> r[i].student == list[i] && r[i].age == Age.CalcAge(list[i].birth, today)
  {
    seq(|list|, i requires 0 <= i < |list| => Aged(list[i], Age.CalcAge(list[i].birth, today)))
  }

  /** The lower-cased `"lname fname"` key of the name sort. */
  function NameKey(s: Student): string {
    Text.Lower(s.lname + " " + s.fname)
  }

  /** The comparator of the chosen column; `Desc` negates it. */
  function Comparator(sort: SortColumn, order: SortOrder): (Aged, Aged) -> bool {
    match (sort, order)
    case (ByName, Asc) => (x: Aged, y: Aged) => Text.LexLeq(NameKey(x.student), NameKey(y.student))
    case (ByName, Desc) => (x: Aged, y: Aged) => Text.LexLeq(NameKey(y.student), NameKey(x.student))
    case (ByAge, Asc) => (x: Aged, y: Aged) => x.age <= y.age
    case (ByAge, Desc) => (x: Aged, y: Aged) => y.age <= x.age
  }

  lemma ComparatorIsPreorder(sort: SortColumn, order: SortOrder)
    ensures Lists.TotalPreorder(Comparator(sort, order))
  {
    var leq := Comparator(sort, order);
    if sort == ByName {
      forall x: Aged, y: Aged ensures leq(x, y) || leq(y, x) {
        Text.LexLeqTotal(NameKey(x.student), NameKey(y.student));
      }
      forall x: Aged, y: Aged, z: Aged | leq(x, y) && leq(y, z) ensures leq(x, z) {
        if order == Asc {
          Text.LexLeqTransitive(NameKey(x.student), NameKey(y.student), NameKey(z.student));
        } else {
          Text.LexLeqTransitive(NameKey(z.student), NameKey(y.student), NameKey(x.student));
        }
      }
    }
  }

  /**
   * `filteredAndSorted`: the rows that pass the school filter and the search,
   * decorated with their age and sorted by the chosen column and order.
   */
  method FilteredAndSorted(items: seq<Student>, q: string, school: string,
                           sort: SortColumn, order: SortOrder, today: Date) returns (r: seq<Aged>)
    ensures multiset(r) == multiset(Decorate(ByQuery(BySchool(items, school), q), today))
    ensures Lists.SortedBy(r, Comparator(sort, order))
  {
    var list := BySchool(items, school);
    list := ByQuery(list, q);
    var withAge := Decorate(list, today);
    ComparatorIsPreorder(sort, order);
    r := Lists.SortedCopy(withAge, Comparator(sort, order));
  }

  /** Sorted by age means non-decreasing ages for `Asc` and non-increasing for `Desc`. */
  lemma AgeSortedMeans(r: seq<Aged>, order: SortOrder)
    requires Lists.SortedBy(r, Comparator(ByAge, order))
    ensures order == Asc ==> forall i, j :: 0 <= i < j < |r| ==> r[i].age <= r[j].age
    ensures order == Desc ==> forall i, j :: 0 <= i < j < |r| ==> r[i].age >= r[j].age
  {
    forall i, j | 0 <= i < j < |r|
      ensures Comparator(ByAge, order)(r[i], r[j])
    {
    }
  }

  /** Every row shown passed both filters and carries its own age. */
  lemma ShownRowsPassFilters(r: seq<Aged>, items: seq<Student>, q: string, school: string, today: Date)
    requires multiset(r) == multiset(Decorate(ByQuery(BySchool(items, school), q), today))
    ensures forall a :: a in r ==>
      && a.student in items
      && (school != "" ==> a.student.school == school)
      && (NormalizedQuery(q) != "" ==> MatchesText(a.student, NormalizedQuery(q)))
      && a.age == Age.CalcAge(a.student.birth, today)
  {
    var list := ByQuery(BySchool(items, school), q);
    var d := Decorate(list, today);
    forall a | a in r
      ensures a.student in items
      ensures school != "" ==> a.student.school == school
      ensures NormalizedQuery(q) != "" ==> MatchesText(a.student, NormalizedQuery(q))
      ensures a.age == Age.CalcAge(a.student.birth, today)
    {
      assert a in multiset(r);
      DecoratedRow(a, list, today);
      PassesFilters(a.student, items, q, school);
    }
  }

  lemma DecoratedRow(a: Aged, list: seq<Student>, today: Date)
    requires a in Decorate(list, today)
    ensures a.student in list && a.age == Age.CalcAge(a.student.birth, today)
  {
    var d := Decorate(list, today);
    var k :| 0 <= k < |d| && d[k] == a;
    assert list[k] == a.student;
  }

  lemma PassesFilters(s: Student, items: seq<Student>, q: string, school: string)
    requires s in ByQuery(BySchool(items, school), q)
    ensures s in items
    ensures school != "" ==> s.school == school
    ensures NormalizedQuery(q) != "" ==> MatchesText(s, NormalizedQuery(q))
  {
  }

  /** `hasFilter`: a query or a school is set. */
  function HasFilter(q: string, school: string): (r: bool)
    ensures r <==> |q| > 0 || |school| > 0
  {
    q != "" || school != ""
  }

  /** The state change of one click on a column header. */
  function Clicked(sort: SortColumn, order: SortOrder, next: SortColumn): (r: (SortColumn, SortOrder))
    ensures r.0 == next
    ensures sort == next ==> r.1 == Flip(order)
    ensures sort != next ==> r.1 == Asc
  {
    if sort == next then (sort, Flip(order)) else (next, Asc)
  }

  /** Clicking the current column twice restores the order. */
  lemma ClickTwice(sort: SortColumn, order: SortOrder)
    ensures var s1 := Clicked(sort, order, sort); Clicked(s1.0, s1.1, sort) == (sort, order)
  {
  }

  /** Switching to another column always starts ascending, and a second click makes it descending. */
  lemma SwitchThenClick(sort: SortColumn, order: SortOrder, next: SortColumn)
    requires next != sort
    ensures var s1 := Clicked(sort, order, next); s1 == (next, Asc) && Clicked(s1.0, s1.1, next) == (next, Desc)
  {
  }

  /** The page's `sort` and `order` state, initially name ascending. */
  class SortControls {
    var sort: SortColumn
    var order: SortOrder

    constructor ()
      ensures sort == ByName && order == Asc
    {
      sort := ByName;
      order := Asc;
    }

    method ToggleOrder()
      modifies this
      ensures sort == old(sort) && order == Flip(old(order))
    {
      order := if order == Asc then Desc else Asc;
    }

    method SetSortBy(next: SortColumn)
      modifies this
      ensures (sort, order) == Clicked(old(sort), old(order), next)
    {
      if sort == next {
        ToggleOrder();
      } else {
        order := Asc;
        sort := next;
      }
    }
  }
}
