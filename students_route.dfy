/**
 * `GET /api/students`: search, school filter, paging and the optional age
 * sort of the student list. Each item carries the computed age and the
 * display name.
 */
module StudentsRoute {
  import opened Wrappers
  import opened Domain
  import opened Database
  import Age
  import Text
  import Lists

  /**
   * The query parameters; `None` is a parameter that is absent. `limit` and
   * `offset` are the values `parseInt` reads from their strings.
   */
  datatype Query = Query(
    q: Option<string>,
    school: Option<string>,
    sort: Option<string>,
    order: Option<string>,
    limit: Option<int>,
    offset: Option<int>)

  /** `get(p)?.trim() || ""`. */
  function TrimmedParam(p: Option<string>): (r: string)
    ensures p.None? ==> r == ""
    ensures p.Some? ==> Text.IsTrimOf(r, p.value)
    ensures r == [] || (!Text.IsSpace(r[0]) && !Text.IsSpace(r[|r| - 1]))
  {
    if p.None? then "" else Text.Trim(p.value)
  }

  /** `get(p) || default`: an absent or empty parameter takes the default. */
  function OrDefault(p: Option<string>, default: string): (r: string)
    ensures p.None? || p == Some("") ==> r == default
    ensures p.Some? && p.value != "" ==> r == p.value
  {
    if p.None? || p.value == "" then default else p.value
  }

  const DefaultLimit: int := 100
  const MaxLimit: int := 200

  /** `Math.min(limit ?? 100, 200)`: never above 200. */
  function ClampLimit(p: Option<int>): (r: int)
    ensures r <= MaxLimit && r <= p.GetOr(DefaultLimit)
    ensures r == MaxLimit || r == p.GetOr(DefaultLimit)
  {
    var v := p.GetOr(DefaultLimit);
    if v < MaxLimit then v else MaxLimit
  }

  /** `Math.max(offset ?? 0, 0)`: never negative. */
  function ClampOffset(p: Option<int>): (r: nat)
    ensures r >= p.GetOr(0)
    ensures r == 0 || r == p.GetOr(0)
  {
    var v := p.GetOr(0);
    if v > 0 then v else 0
  }

  /** The case-insensitive `contains` search on id, first name, last name and email. */
  predicate MatchesText(s: Student, q: string) {
    var lq := Text.Lower(q);
    || Text.Contains(Text.Lower(s.id), lq)
    || Text.Contains(Text.Lower(s.fname), lq)
    || Text.Contains(Text.Lower(s.lname), lq)
    || Text.Contains(Text.Lower(s.email), lq)
  }

  /** The `where` clause: the search when `q` is non-empty, the exact school when it is non-empty. */
  predicate Matches(s: Student, q: string, school: string) {
    (q == "" || MatchesText(s, q)) && (school == "" || s.school == school)
  }

  /** `skip: offset, take: limit` over the matching rows, for a limit that is not negative. */
  function Window<T>(rows: seq<T>, offset: nat, limit: nat): (r: seq<T>)
    ensures |r| <= limit
    ensures offset + limit <= |rows| ==> |r| == limit
    ensures |r| == if offset >= |rows| then 0 else if offset + limit <= |rows| then limit else |rows| - offset
    ensures forall i :: 0 <= i < |r| ==> offset + i < |rows| && r[i] == rows[offset + i]
  {
    var from := if offset < |rows| then offset else |rows|;
    var to := if offset + limit < |rows| then offset + limit else |rows|;
    rows[from..to]
  }

  datatype Item = Item(student: Student, age: int, name: string)

  /** One enriched row: the computed age and `fname + " " + lname`. */
  function Enrich(s: Student, today: Date): (it: Item)
    ensures it.student == s && it.name == s.fname + " " + s.lname
    ensures Age.DateLeq(Age.AddYears(s.birth, it.age), today)
    ensures Age.DateLess(today, Age.AddYears(s.birth, it.age + 1))
  {
    Item(s, Age.CalcAge(s.birth, today), s.fname + " " + s.lname)
  }

  function EnrichAll(rows: seq<Student>, today: Date): (r: seq<Item>)
    ensures |r| == |rows|
    ensures forall i :: 0 <= i < |rows| ==> r[i] == Enrich(rows[i], today)
  {
    seq(|rows|, i requires 0 <= i < |rows| => Enrich(rows[i], today))
  }

  /** The age comparator: ascending for `"asc"`, descending for any other order. */
  function AgeOrder(ascending: bool): (Item, Item) -> bool {
    if ascending then (x: Item, y: Item) => x.age <= y.age else (x: Item, y: Item) => x.age >= y.age
  }

  lemma AgeOrderIsPreorder(ascending: bool)
    ensures Lists.TotalPreorder(AgeOrder(ascending))
  {
  }

  datatype Response = Response(total: nat, items: seq<Item>)

  /** A negative limit is handed to the database unchanged; the model does not page with it. */
  datatype Failure = NegativeLimit

  /**
   * The handler. `total` counts every matching student; `items` are the
   * enriched rows of the requested window, in fetch order unless
   * `sort=age`, in which case they are those rows sorted by age.
   */
  method ListStudents(db: Db, query: Query, today: Date) returns (res: Result<Response, Failure>)
    ensures res.Failure? <==> ClampLimit(query.limit) < 0
    ensures res.Success? ==>
      var q := TrimmedParam(query.q);
      var school := TrimmedParam(query.school);
      var matching := Lists.Filter(db.students, s => Matches(s, q, school));
      var rows := Window(matching, ClampOffset(query.offset), ClampLimit(query.limit));
      && res.value.total == |matching|
      && |res.value.items| == |rows|
      && (OrDefault(query.sort, "name") != "age" ==> res.value.items == EnrichAll(rows, today))
      && (OrDefault(query.sort, "name") == "age" ==>
            && multiset(res.value.items) == multiset(EnrichAll(rows, today))
            && Lists.SortedBy(res.value.items, AgeOrder(OrDefault(query.order, "asc") == "asc")))
  {
    var q := TrimmedParam(query.q);
    var school := TrimmedParam(query.school);
    var sort := OrDefault(query.sort, "name");
    var order := OrDefault(query.order, "asc");
    var limit := ClampLimit(query.limit);
    var offset := ClampOffset(query.offset);
    if limit < 0 {
      return Failure(NegativeLimit);
    }
    var matching := Lists.Filter(db.students, s => Matches(s, q, school));
    var rows := Window(matching, offset, limit);
    var total := |matching|;
    var enriched := EnrichAll(rows, today);
    var items := enriched;
    if sort == "age" {
      AgeOrderIsPreorder(order == "asc");
      items := Lists.SortedCopy(enriched, AgeOrder(order == "asc"));
      assert |items| == |multiset(items)| == |multiset(enriched)| == |enriched|;
    }
    res := Success(Response(total, items));
  }

  /** Sorted by the ascending comparator means non-decreasing ages; descending, non-increasing. */
  lemma AgeSortedMeans(items: seq<Item>, ascending: bool)
    requires Lists.SortedBy(items, AgeOrder(ascending))
    ensures ascending ==> forall i, j :: 0 <= i < j < |items| ==> items[i].age <= items[j].age
    ensures !ascending ==> forall i, j :: 0 <= i < j < |items| ==> items[i].age >= items[j].age
  {
    forall i, j | 0 <= i < j < |items|
      ensures AgeOrder(ascending)(items[i], items[j])
    {
    }
  }
}
