/** The read endpoints of the search API over the `government_projects` table.

    The table is given as its rows, newest first (the order the queries request with
    `.order('created_at', desc=True)`), or as unreachable with the error's message; a handler's
    result is a body or an HTTP error. */
module Api {
  import opened Wrappers
  import opened Text
  import opened JsonValues

  datatype Db = Table(rows: seq<Row>) | Unreachable(error: string)

  datatype Response<T> = Ok(body: T) | HttpError(status: int, detail: string)

  const NotFoundDetail: string := "과제를 찾을 수 없습니다"

  /** A request limit the query parameter's validation lets through. */
  predicate ValidLimit(limit: int) {
    1 <= limit <= 50
  }

  /** The rows of a `select` of the given columns. */
  function Project(row: Row, columns: set<string>): (r: Row)
    ensures r.Keys == row.Keys * columns
    ensures forall k :: k in r ==> r[k] == row[k]
  {
    map k | k in row && k in columns :: row[k]
  }

  // ---------------------------------------------------------------------------------------------
  // Detail

  /** The list fields the detail handler normalises. */
  const ListFields: set<string> := {
    "tags", "objectives", "eligibility_requirements", "eligibility_restrictions", "support_details"}

  /** The rows whose `id` equals the requested one, in table order. */
  function WithId(rows: seq<Row>, id: int): (r: seq<Row>)
    ensures |r| <= |rows|
    ensures forall x :: x in r ==> x in rows && Get(x, "id", JNull) == JNum(id as real)
    ensures forall x :: x in rows && Get(x, "id", JNull) == JNum(id as real) ==> x in r
  {
    if rows == [] then []
    else
      var x := rows[|rows| - 1];
      WithId(rows[..|rows| - 1], id) + (if Get(x, "id", JNull) == JNum(id as real) then [x] else [])
  }

  /** Every list field set to `project.get(field) or []`. */
  function Normalize(project: Row): Row {
    map k | k in project.Keys + ListFields :: if k in ListFields then ListOrEmpty(project, k) else project[k]
  }

  /** Normalising gives every list field a true value or [], and leaves every other field as it
      was. */
  lemma NormalizeSpec(project: Row)
    ensures Normalize(project).Keys == project.Keys + ListFields
    ensures forall k :: k in ListFields ==>
      Normalize(project)[k] == (if k in project && Truthy(project[k]) then project[k] else JArr([]))
    ensures forall k :: k in project && k !in ListFields ==> Normalize(project)[k] == project[k]
  {
  }

  /** `get_project_detail`: a failed query is a 500 carrying the error, no matching row a 404 that
      is passed on as it is, and otherwise the first matching row with its list fields
      normalised. */
  method GetProjectDetail(projectId: int, db: Db) returns (resp: Response<Row>)
    ensures db.Unreachable? ==> resp == HttpError(500, db.error)
    ensures db.Table? && WithId(db.rows, projectId) == [] ==> resp == HttpError(404, NotFoundDetail)
    ensures db.Table? && WithId(db.rows, projectId) != [] ==> resp == Ok(Normalize(WithId(db.rows, projectId)[0]))
  {
    if db.Unreachable? {
      return HttpError(500, db.error);
    }
    var data := WithId(db.rows, projectId);
    if data == [] {
      return HttpError(404, NotFoundDetail);
    }
    var project := data[0];
    NormalizedField(data[0], project, 0);
    project := project["tags" := ListOrEmpty(project, "tags")];
    NormalizedField(data[0], project, 1);
    project := project["objectives" := ListOrEmpty(project, "objectives")];
    NormalizedField(data[0], project, 2);
    project := project["eligibility_requirements" := ListOrEmpty(project, "eligibility_requirements")];
    NormalizedField(data[0], project, 3);
    project := project["eligibility_restrictions" := ListOrEmpty(project, "eligibility_restrictions")];
    NormalizedField(data[0], project, 4);
    project := project["support_details" := ListOrEmpty(project, "support_details")];
    NormalizedAll(data[0], project);
    return Ok(project);
  }

  /** The list fields in the order the handler normalises them. */
  const ListOrder: seq<string> :=
    ["tags", "objectives", "eligibility_requirements", "eligibility_restrictions", "support_details"]

  /** The first `n` list fields. */
  ghost function Done(n: nat): set<string>
    requires n <= |ListOrder|
  {
    set i | 0 <= i < n :: ListOrder[i]
  }

  lemma ListOrderDistinct()
    ensures forall i, j :: 0 <= i < j < |ListOrder| ==> ListOrder[i] != ListOrder[j]
  {
  }

  /** `project` is `orig` with the list fields in `fields` already normalised. */
  ghost predicate NormalizedOn(orig: Row, project: Row, fields: set<string>) {
    && project.Keys == orig.Keys + fields
    && forall k :: k in project ==> project[k] == if k in fields then ListOrEmpty(orig, k) else orig[k]
  }

  /** Normalising the next field reads that field as it was in the original row. */
  lemma NormalizedField(orig: Row, project: Row, n: nat)
    requires n < |ListOrder|
    requires n == 0 ==> project == orig
    requires n > 0 ==> NormalizedOn(orig, project, Done(n))
    ensures NormalizedOn(orig, project[ListOrder[n] := ListOrEmpty(project, ListOrder[n])], Done(n + 1))
  {
    var k := ListOrder[n];
    ListOrderDistinct();
    assert Done(n + 1) == Done(n) + {k};
    assert k !in Done(n);
    assert Done(0) == {};
    assert NormalizedOn(orig, project, Done(n));
    assert ListOrEmpty(project, k) == ListOrEmpty(orig, k);
  }

  /** With all five list fields done, the row is the normalised original. */
  lemma NormalizedAll(orig: Row, project: Row)
    requires NormalizedOn(orig, project, Done(|ListOrder|))
    ensures project == Normalize(orig)
  {
    var d := Done(|ListOrder|);
    assert ListOrder[0] in d && ListOrder[1] in d && ListOrder[2] in d;
    assert ListOrder[3] in d && ListOrder[4] in d;
    assert d == ListFields;
  }

  // ---------------------------------------------------------------------------------------------
  // Recent and filtered lists

  const RecentColumns: set<string> := {"id", "title", "organization", "deadline", "description", "tags"}
  const FilterColumns: set<string> := RecentColumns + {"status"}

  /** One list item: `similarity` set to 1.0 and `tags` set to `item.get('tags') or []`. */
  function Annotate(item: Row): Row {
    item["similarity" := JNum(1.0)]["tags" := ListOrEmpty(item, "tags")]
  }

  /** An annotated item has similarity exactly 1.0 and a non-null tags value (the row's own when
      true, else []); every other field is the row's. */
  lemma AnnotateSpec(item: Row)
    ensures var a := Annotate(item);
      && a.Keys == item.Keys + {"similarity", "tags"}
      && a["similarity"] == JNum(1.0)
      && a["tags"] != JNull
      && a["tags"] == (if "tags" in item && Truthy(item["tags"]) then item["tags"] else JArr([]))
      && (forall k :: k in item && k != "similarity" && k != "tags" ==> a[k] == item[k])
  {
  }

  /** The loop both list handlers run over the fetched rows. */
  method AnnotateAll(data: seq<Row>) returns (projects: seq<Row>)
    ensures |projects| == |data|
    ensures forall i :: 0 <= i < |data| ==> projects[i] == Annotate(data[i])
  {
    projects := [];
    for i := 0 to |data|
      invariant |projects| == i
      invariant forall j :: 0 <= j < i ==> projects[j] == Annotate(data[j])
    {
      var item := data[i];
      item := item["similarity" := JNum(1.0)];
      item := item["tags" := ListOrEmpty(item, "tags")];
      assert item == Annotate(data[i]);
      projects := projects + [item];
    }
  }

  /** The selected columns of the first `limit` rows. */
  function Fetch(rows: seq<Row>, columns: set<string>, limit: int): (r: seq<Row>)
    requires ValidLimit(limit)
    ensures |r| == if |rows| < limit then |rows| else limit
    ensures forall i :: 0 <= i < |r| ==> r[i] == Project(rows[i], columns)
  {
    var n := if |rows| < limit then |rows| else limit;
    seq(n, i requires 0 <= i < n => Project(rows[i], columns))
  }

  /** `get_recent_projects`: the newest `limit` rows, annotated, in table order. */
  method GetRecentProjects(limit: int, db: Db) returns (resp: Response<seq<Row>>)
    requires ValidLimit(limit)
    ensures db.Unreachable? ==> resp == HttpError(500, db.error)
    ensures db.Table? ==>
      && resp.Ok?
      && |resp.body| == (if |db.rows| < limit then |db.rows| else limit)
      && forall i :: 0 <= i < |resp.body| ==> resp.body[i] == Annotate(Project(db.rows[i], RecentColumns))
  {
    if db.Unreachable? {
      return HttpError(500, db.error);
    }
    var data := Fetch(db.rows, RecentColumns, limit);
    var projects := AnnotateAll(data);
    return Ok(projects);
  }

  /** An optional query argument that filters: present and non-empty. */
  predicate Active(arg: Option<string>) {
    arg.Some? && arg.value != []
  }

  /** `organization ILIKE '%o%'`: the organisation is a string holding `o`, ignoring case. */
  predicate OrgMatches(row: Row, o: string) {
    var v := Get(row, "organization", JNull);
    v.JStr? && Contains(Lower(v.s), Lower(o))
  }

  /** `tags @> [t]`: the tags are a list holding the string `t`. */
  predicate TagMatches(row: Row, t: string) {
    var v := Get(row, "tags", JNull);
    v.JArr? && JStr(t) in v.items
  }

  /** A row passes the filters: each active argument adds its condition. */
  predicate Matches(row: Row, organization: Option<string>, tag: Option<string>, status: Option<string>) {
    && (Active(organization) ==> OrgMatches(row, organization.value))
    && (Active(status) ==> Get(row, "status", JNull) == JStr(status.value))
    && (Active(tag) ==> TagMatches(row, tag.value))
  }

  /** The rows passing the filters, in table order. */
  function Filtered(rows: seq<Row>, organization: Option<string>, tag: Option<string>, status: Option<string>): (r: seq<Row>)
    ensures |r| <= |rows|
  {
    if rows == [] then []
    else
      var x := rows[|rows| - 1];
      Filtered(rows[..|rows| - 1], organization, tag, status)
        + (if Matches(x, organization, tag, status) then [x] else [])
  }

  /** Filtering keeps exactly the matching rows, and with no active filter it keeps every row. */
  lemma FilteredSpec(rows: seq<Row>, organization: Option<string>, tag: Option<string>, status: Option<string>)
    ensures var r := Filtered(rows, organization, tag, status);
      forall x :: x in r ==> x in rows && Matches(x, organization, tag, status)
    ensures forall x :: x in rows && Matches(x, organization, tag, status) ==> x in Filtered(rows, organization, tag, status)
    ensures !Active(organization) && !Active(tag) && !Active(status) ==> Filtered(rows, organization, tag, status) == rows
  {
    FilteredSound(rows, organization, tag, status);
    FilteredComplete(rows, organization, tag, status);
    if !Active(organization) && !Active(tag) && !Active(status) {
      FilteredNoFilter(rows, organization, tag, status);
    }
  }

  /** Filtering works row by row and keeps table order: the filtered rows of two row lists put
      together are those of the first followed by those of the second. */
  lemma {:induction false} FilteredAppend(a: seq<Row>, b: seq<Row>, organization: Option<string>, tag: Option<string>, status: Option<string>)
    ensures Filtered(a + b, organization, tag, status)
      == Filtered(a, organization, tag, status) + Filtered(b, organization, tag, status)
  {
    if b != [] {
      var b' := b[..|b| - 1];
      assert (a + b)[..|a + b| - 1] == a + b';
      FilteredAppend(a, b', organization, tag, status);
    } else {
      assert a + b == a;
    }
  }

  /** One row is kept exactly when it meets the filters. */
  lemma FilteredOne(x: Row, organization: Option<string>, tag: Option<string>, status: Option<string>)
    ensures Filtered([x], organization, tag, status) == if Matches(x, organization, tag, status) then [x] else []
  {
    assert [x][..0] == [];
  }

  lemma {:induction false} FilteredSound(rows: seq<Row>, organization: Option<string>, tag: Option<string>, status: Option<string>)
    ensures forall x :: x in Filtered(rows, organization, tag, status) ==> x in rows && Matches(x, organization, tag, status)
  {
    if rows != [] {
      var init := rows[..|rows| - 1];
      FilteredSound(init, organization, tag, status);
      assert forall x :: x in init ==> x in rows;
    }
  }

  lemma {:induction false} FilteredComplete(rows: seq<Row>, organization: Option<string>, tag: Option<string>, status: Option<string>)
    ensures forall x :: x in rows && Matches(x, organization, tag, status) ==> x in Filtered(rows, organization, tag, status)
  {
    if rows != [] {
      var init := rows[..|rows| - 1];
      FilteredComplete(init, organization, tag, status);
      assert rows == init + [rows[|rows| - 1]];
    }
  }

  lemma {:induction false} FilteredNoFilter(rows: seq<Row>, organization: Option<string>, tag: Option<string>, status: Option<string>)
    requires !Active(organization) && !Active(tag) && !Active(status)
    ensures Filtered(rows, organization, tag, status) == rows
  {
    if rows != [] {
      var init := rows[..|rows| - 1];
      FilteredNoFilter(init, organization, tag, status);
      assert rows == init + [rows[|rows| - 1]];
    }
  }

  /** `filter_projects`: the first `limit` rows passing every active filter, annotated. */
  method FilterProjects(
    organization: Option<string>, tag: Option<string>, status: Option<string>, limit: int, db: Db)
    returns (resp: Response<seq<Row>>)
    requires ValidLimit(limit)
    ensures db.Unreachable? ==> resp == HttpError(500, db.error)
    ensures db.Table? ==>
      var matching := Filtered(db.rows, organization, tag, status);
      resp.Ok?
      && |resp.body| == (if |matching| < limit then |matching| else limit)
      && forall i :: 0 <= i < |resp.body| ==> resp.body[i] == Annotate(Project(matching[i], FilterColumns))
  {
    if db.Unreachable? {
      return HttpError(500, db.error);
    }
    var matching := Filtered(db.rows, organization, tag, status);
    var data := Fetch(matching, FilterColumns, limit);
    var projects := AnnotateAll(data);
    return Ok(projects);
  }

  /** Every item of the filtered list satisfies every active filter, with similarity 1.0. */
  lemma FilterItemsMatch(
    organization: Option<string>, tag: Option<string>, status: Option<string>, limit: int, rows: seq<Row>, i: int)
    requires ValidLimit(limit)
    requires 0 <= i < |Fetch(Filtered(rows, organization, tag, status), FilterColumns, limit)|
    ensures var item := Annotate(Fetch(Filtered(rows, organization, tag, status), FilterColumns, limit)[i]);
      Matches(item, organization, tag, status) && item["similarity"] == JNum(1.0)
  {
    var matching := Filtered(rows, organization, tag, status);
    FilteredSpec(rows, organization, tag, status);
    var row := matching[i];
    assert row in matching;
    var p := Project(row, FilterColumns);
    AnnotateSpec(p);
    var item := Annotate(p);
    if Active(tag) {
      assert TagMatches(row, tag.value);
      assert item["tags"] == row["tags"];
    }
    if Active(organization) {
      assert item["organization"] == row["organization"];
    }
    if Active(status) {
      assert item["status"] == row["status"];
    }
  }

  // ---------------------------------------------------------------------------------------------
  // Statistics

  /** How many entries of `s` equal `x`. */
  function Occurrences<T(==)>(s: seq<T>, x: T): nat {
    if s == [] then 0 else Occurrences(s[..|s| - 1], x) + (if s[|s| - 1] == x then 1 else 0)
  }

  /** The distinct entries of `s` in order of first appearance (a dict's insertion order). */
  function FirstSeen<T(==)>(s: seq<T>): seq<T> {
    if s == [] then []
    else
      var keys := FirstSeen(s[..|s| - 1]);
      if s[|s| - 1] in keys then keys else keys + [s[|s| - 1]]
  }

  predicate Distinct<T(==)>(s: seq<T>) {
    forall i, j :: 0 <= i < j < |s| ==> s[i] != s[j]
  }

  /** The dict's keys are the values seen, each once. */
  lemma {:induction false} FirstSeenSpec<T>(s: seq<T>)
    ensures Distinct(FirstSeen(s))
    ensures forall x :: x in FirstSeen(s) <==> x in s
  {
    if s != [] {
      FirstSeenSpec(s[..|s| - 1]);
      assert s == s[..|s| - 1] + [s[|s| - 1]];
    }
  }

  /** The position where `x` first appears in `s`. */
  function FirstIndex<T(==)>(s: seq<T>, x: T): (k: nat)
    requires x in s
    ensures k < |s| && s[k] == x
    ensures forall m :: 0 <= m < k ==> s[m] != x
  {
    if s[0] == x then 0 else 1 + FirstIndex(s[1..], x)
  }

  /** Appending an entry does not move the first appearance of a value already present. */
  lemma FirstIndexSnoc<T>(s: seq<T>, y: T, x: T)
    requires x in s
    ensures FirstIndex(s + [y], x) == FirstIndex(s, x)
  {
    var k := FirstIndex(s, x);
    var k' := FirstIndex(s + [y], x);
    assert (s + [y])[k] == x;
    assert k' <= k;
    assert s[k'] == (s + [y])[k'];
  }

  /** A value appended to a sequence that lacks it first appears at the end. */
  lemma FirstIndexAppended<T>(s: seq<T>, y: T)
    requires y !in s
    ensures FirstIndex(s + [y], y) == |s|
  {
    assert forall m :: 0 <= m < |s| ==> (s + [y])[m] == s[m];
  }

  /** The keys of `s` are ordered by first appearance. */
  ghost predicate FirstSeenOrdered<T>(s: seq<T>, keys: seq<T>) {
    forall i, j :: 0 <= i < j < |keys| ==>
      keys[i] in s && keys[j] in s && FirstIndex(s, keys[i]) < FirstIndex(s, keys[j])
  }

  /** The dict's keys come in the order in which their values first appear. */
  lemma {:induction false} FirstSeenOrder<T>(s: seq<T>)
    ensures FirstSeenOrdered(s, FirstSeen(s))
  {
    if s != [] {
      var init := s[..|s| - 1];
      var y := s[|s| - 1];
      assert s == init + [y];
      FirstSeenOrder(init);
      FirstSeenSpec(init);
      var keys := FirstSeen(init);
      assert FirstSeen(s) == if y in keys then keys else keys + [y];
      FirstSeenOrderStep(init, y, keys);
    }
  }

  lemma FirstSeenOrderStep<T>(init: seq<T>, y: T, keys: seq<T>)
    requires forall x :: x in keys <==> x in init
    requires FirstSeenOrdered(init, keys)
    ensures FirstSeenOrdered(init + [y], if y in keys then keys else keys + [y])
  {
    var fs := if y in keys then keys else keys + [y];
    forall i, j | 0 <= i < j < |fs|
      ensures fs[i] in init + [y] && fs[j] in init + [y]
      ensures FirstIndex(init + [y], fs[i]) < FirstIndex(init + [y], fs[j])
    {
      assert fs[i] == keys[i] && keys[i] in init;
      FirstIndexSnoc(init, y, keys[i]);
      if j < |keys| {
        assert fs[j] == keys[j] && keys[j] in init;
        FirstIndexSnoc(init, y, keys[j]);
      } else {
        assert fs[j] == y && y !in init;
        FirstIndexAppended(init, y);
      }
    }
  }

  lemma OccurrencesPositive<T>(s: seq<T>, x: T)
    ensures Occurrences(s, x) > 0 <==> x in s
  {
    if s != [] {
      OccurrencesPositive(s[..|s| - 1], x);
      assert s == s[..|s| - 1] + [s[|s| - 1]];
    }
  }

  /** The `organization` of each row. */
  function Organizations(rows: seq<Row>): (orgs: seq<Json>)
    ensures |orgs| == |rows|
    ensures forall i :: 0 <= i < |rows| ==> orgs[i] == Get(rows[i], "organization", JNull)
  {
    seq(|rows|, i requires 0 <= i < |rows| => Get(rows[i], "organization", JNull))
  }

  /** One `(organization, count)` pair of `org_count.items()`. */
  datatype OrgCount = OrgCount(org: Json, count: nat)

  /** The organisation counting loop of `get_stats`: first-seen keys and a count per key. */
  method CountOrganizations(orgs: seq<Json>) returns (keys: seq<Json>, counts: map<Json, nat>)
    ensures keys == FirstSeen(orgs)
    ensures counts.Keys == set x | x in orgs
    ensures forall x :: x in counts ==> counts[x] == Occurrences(orgs, x)
  {
    keys := [];
    counts := map[];
    for i := 0 to |orgs|
      invariant keys == FirstSeen(orgs[..i])
      invariant counts.Keys == set x | x in orgs[..i]
      invariant forall x :: x in counts ==> counts[x] == Occurrences(orgs[..i], x)
    {
      assert orgs[..i + 1][..i] == orgs[..i];
      assert orgs[..i + 1] == orgs[..i] + [orgs[i]];
      var org := orgs[i];
      FirstSeenSpec(orgs[..i]);
      if org !in counts {
        keys := keys + [org];
      }
      var previous := if org in counts then counts[org] else 0;
      counts := counts[org := previous + 1];
      forall x | x in counts ensures counts[x] == Occurrences(orgs[..i + 1], x) {
        OccurrencesPositive(orgs[..i], x);
      }
    }
    assert orgs[..|orgs|] == orgs;
  }

  /** Python's `sorted(pairs, key=count, reverse=True)` inserts each pair after every pair whose
      count is at least its own. */
  function InsertByCount(sorted: seq<OrgCount>, x: OrgCount): (r: seq<OrgCount>)
    ensures |r| == |sorted| + 1
  {
    if sorted == [] || sorted[|sorted| - 1].count >= x.count then sorted + [x]
    else InsertByCount(sorted[..|sorted| - 1], x) + [sorted[|sorted| - 1]]
  }

  function SortByCount(items: seq<OrgCount>): (r: seq<OrgCount>)
    ensures |r| == |items|
  {
    if items == [] then [] else InsertByCount(SortByCount(items[..|items| - 1]), items[|items| - 1])
  }

  predicate NonIncreasing(s: seq<OrgCount>) {
    forall i, j :: 0 <= i < j < |s| ==> s[i].count >= s[j].count
  }

  /** The pairs with a given count, in order. */
  function WithCount(s: seq<OrgCount>, c: nat): seq<OrgCount> {
    if s == [] then [] else WithCount(s[..|s| - 1], c) + (if s[|s| - 1].count == c then [s[|s| - 1]] else [])
  }

  lemma {:induction false} WithCountAppend(a: seq<OrgCount>, b: seq<OrgCount>, c: nat)
    ensures WithCount(a + b, c) == WithCount(a, c) + WithCount(b, c)
  {
    if b != [] {
      assert (a + b)[..|a + b| - 1] == a + b[..|b| - 1];
      WithCountAppend(a, b[..|b| - 1], c);
    } else {
      assert a + b == a;
    }
  }

  lemma {:induction false} InsertByCountElements(sorted: seq<OrgCount>, x: OrgCount)
    ensures multiset(InsertByCount(sorted, x)) == multiset(sorted) + multiset{x}
  {
    if !(sorted == [] || sorted[|sorted| - 1].count >= x.count) {
      var init := sorted[..|sorted| - 1];
      assert sorted == init + [sorted[|sorted| - 1]];
      InsertByCountElements(init, x);
    }
  }

  lemma {:induction false} InsertByCountOrdered(sorted: seq<OrgCount>, x: OrgCount)
    requires NonIncreasing(sorted)
    ensures NonIncreasing(InsertByCount(sorted, x))
  {
    if !(sorted == [] || sorted[|sorted| - 1].count >= x.count) {
      var init := sorted[..|sorted| - 1];
      var last := sorted[|sorted| - 1];
      InsertByCountOrdered(init, x);
      InsertByCountElements(init, x);
      var r := InsertByCount(init, x) + [last];
      forall i, j | 0 <= i < j < |r| ensures r[i].count >= r[j].count {
        if j == |r| - 1 {
          var y := r[i];
          assert y in multiset(InsertByCount(init, x));
          assert y in multiset(init) + multiset{x};
          if y != x {
            assert y in init;
          }
        }
      }
    }
  }

  lemma {:induction false} InsertByCountStable(sorted: seq<OrgCount>, x: OrgCount, c: nat)
    ensures WithCount(InsertByCount(sorted, x), c) == WithCount(sorted, c) + WithCount([x], c)
  {
    if sorted == [] || sorted[|sorted| - 1].count >= x.count {
      WithCountAppend(sorted, [x], c);
    } else {
      var init := sorted[..|sorted| - 1];
      var last := sorted[|sorted| - 1];
      assert sorted == init + [last];
      var before := WithCount(init, c);
      var wx := WithCount([x], c);
      var wl := WithCount([last], c);
      WithCountSingle(x, c);
      WithCountSingle(last, c);
      InsertByCountStable(init, x, c);
      WithCountAppend(InsertByCount(init, x), [last], c);
      WithCountAppend(init, [last], c);
      SwapEmpty(before, wx, wl);
    }
  }

  /** Two pieces of which one is empty can be appended in either order. */
  lemma SwapEmpty(before: seq<OrgCount>, wx: seq<OrgCount>, wl: seq<OrgCount>)
    requires wx == [] || wl == []
    ensures (before + wx) + wl == (before + wl) + wx
  {
    if wx == [] {
      assert (before + wx) + wl == before + wl;
    } else {
      assert (before + wl) + wx == before + wx;
    }
  }

  lemma WithCountSingle(y: OrgCount, c: nat)
    ensures WithCount([y], c) == if y.count == c then [y] else []
  {
    assert [y][..0] == [];
  }

  /** The sort orders by non-increasing count, keeps every pair, and is stable: the pairs of each
      count appear in their original order. */
  lemma {:induction false} SortByCountSpec(items: seq<OrgCount>)
    ensures NonIncreasing(SortByCount(items))
    ensures multiset(SortByCount(items)) == multiset(items)
    ensures forall c :: WithCount(SortByCount(items), c) == WithCount(items, c)
  {
    if items != [] {
      var init := items[..|items| - 1];
      SortByCountSpec(init);
      var x := items[|items| - 1];
      InsertByCountOrdered(SortByCount(init), x);
      InsertByCountElements(SortByCount(init), x);
      assert items == init + [x];
      forall c ensures WithCount(SortByCount(items), c) == WithCount(items, c) {
        InsertByCountStable(SortByCount(init), x, c);
        WithCountAppend(init, [x], c);
      }
    }
  }

  /** The five top pairs are in non-increasing order, there are `min(5, n)` of them, each comes
      from the input, and no pair left out has a higher count than any pair kept. */
  lemma Top5Spec(items: seq<OrgCount>)
    ensures |Top5(items)| == if |items| < 5 then |items| else 5
    ensures NonIncreasing(Top5(items))
    ensures forall t :: t in Top5(items) ==> t in items
    ensures forall x, t :: x in items && x !in Top5(items) && t in Top5(items) ==> t.count >= x.count
  {
    var sorted := SortByCount(items);
    SortByCountSpec(items);
    var top := Top5(items);
    assert top == sorted[..|top|];
    forall t | t in top ensures t in items {
      assert t in multiset(sorted);
    }
    forall x, t | x in items && x !in top && t in top ensures t.count >= x.count {
      Top5Beats(items, x, t);
    }
  }

  /** An organisation left out of the top five has no more projects than any that is in it. */
  lemma Top5Beats(items: seq<OrgCount>, x: OrgCount, t: OrgCount)
    requires x in items && x !in Top5(items) && t in Top5(items)
    ensures t.count >= x.count
  {
    var sorted := SortByCount(items);
    SortByCountSpec(items);
    var top := Top5(items);
    assert top == sorted[..|top|];
    assert x in multiset(sorted);
    var k :| 0 <= k < |sorted| && sorted[k] == x;
    var i :| 0 <= i < |top| && top[i] == t;
    assert sorted[i] == t;
    assert forall m :: 0 <= m < |top| ==> sorted[m] in top;
  }

  /** The counts of the given keys, added up. */
  function SumCounts(keys: seq<Json>, orgs: seq<Json>): nat {
    if keys == [] then 0 else SumCounts(keys[..|keys| - 1], orgs) + Occurrences(orgs, keys[|keys| - 1])
  }

  lemma {:induction false} SumCountsSnoc(keys: seq<Json>, orgs: seq<Json>, e: Json)
    requires Distinct(keys)
    ensures SumCounts(keys, orgs + [e]) == SumCounts(keys, orgs) + (if e in keys then 1 else 0)
  {
    if keys != [] {
      var init := keys[..|keys| - 1];
      assert keys == init + [keys[|keys| - 1]];
      SumCountsSnoc(init, orgs, e);
      assert (orgs + [e])[..|orgs|] == orgs;
    }
  }

  lemma {:induction false} SumCountsAbsent(keys: seq<Json>, orgs: seq<Json>, e: Json)
    requires e !in orgs
    ensures SumCounts(keys + [e], orgs) == SumCounts(keys, orgs)
  {
    assert (keys + [e])[..|keys|] == keys;
    OccurrencesPositive(orgs, e);
  }

  /** Every row is counted under exactly one organisation: the counts add up to the row count. */
  lemma {:induction false} CountsAddUp(orgs: seq<Json>)
    ensures SumCounts(FirstSeen(orgs), orgs) == |orgs|
  {
    if orgs != [] {
      var init := orgs[..|orgs| - 1];
      var e := orgs[|orgs| - 1];
      assert orgs == init + [e];
      CountsAddUp(init);
      FirstSeenSpec(init);
      SumCountsSnoc(FirstSeen(init), init, e);
      if e !in FirstSeen(init) {
        SumCountsAbsent(FirstSeen(init), init, e);
        assert (FirstSeen(init) + [e])[..|FirstSeen(init)|] == FirstSeen(init);
        assert Occurrences(orgs, e) == Occurrences(init, e) + 1;
        OccurrencesPositive(init, e);
      }
    }
  }

  lemma {:induction false} DistinctCard<T>(s: seq<T>)
    requires Distinct(s)
    ensures |set x | x in s| == |s|
  {
    if s != [] {
      var init := s[..|s| - 1];
      assert s == init + [s[|s| - 1]];
      DistinctCard(init);
      assert (set x | x in s) == (set x | x in init) + {s[|s| - 1]};
    }
  }

  /** The `organizations` figure is the number of distinct organisation values among the rows. */
  lemma DistinctOrganizations(rows: seq<Row>)
    ensures |FirstSeen(Organizations(rows))| == |set x | x in Organizations(rows)|
  {
    var orgs := Organizations(rows);
    FirstSeenSpec(orgs);
    DistinctCard(FirstSeen(orgs));
    assert (set x | x in FirstSeen(orgs)) == (set x | x in orgs);
  }

  /** The body of `get_stats`. */
  datatype Stats = Stats(totalProjects: nat, organizations: nat, topOrganizations: seq<OrgCount>)

  /** The first five of the sorted pairs. */
  function Top5(items: seq<OrgCount>): seq<OrgCount> {
    SliceTo(SortByCount(items), 5)
  }

  /** `get_stats`: the row count, the number of distinct organisations, and the five organisations
      with the most rows. */
  method GetStats(db: Db) returns (resp: Response<Stats>)
    ensures db.Unreachable? ==> resp == HttpError(500, db.error)
    ensures db.Table? ==>
      var orgs := Organizations(db.rows);
      var keys := FirstSeen(orgs);
      resp == Ok(Stats(|db.rows|, |keys|,
        Top5(seq(|keys|, i requires 0 <= i < |keys| => OrgCount(keys[i], Occurrences(orgs, keys[i]))))))
  {
    if db.Unreachable? {
      return HttpError(500, db.error);
    }
    var orgs := Organizations(db.rows);
    var keys, counts := CountOrganizations(orgs);
    FirstSeenSpec(orgs);
    var items := seq(|keys|, i requires 0 <= i < |keys| => OrgCount(keys[i], counts[keys[i]]));
    assert items == seq(|keys|, i requires 0 <= i < |keys| => OrgCount(keys[i], Occurrences(orgs, keys[i])));
    return Ok(Stats(|db.rows|, |keys|, Top5(items)));
  }
}
