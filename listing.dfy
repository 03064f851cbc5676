/** The listing query: select by exact category, sort, then project each
    record to a listed item. */
module Listing {
  import opened ExpenseModel
  import opened StringOrder

  /** The category filter: applied only when the query parameter is truthy,
      and then as an exact string match. */
  predicate Matches(category: Option<string>, r: Record) {
    !TextTruthy(category) || r.category == category.value
  }

  /** The records the filter admits, each as often as it is stored. */
  function Select(rs: seq<Record>, category: Option<string>): (sel: seq<Record>)
    ensures forall x :: multiset(sel)[x] == if Matches(category, x) then multiset(rs)[x] else 0
  {
    if rs == [] then []
    else
      assert rs == [rs[0]] + rs[1..];
      (if Matches(category, rs[0]) then [rs[0]] else []) + Select(rs[1..], category)
  }

  datatype SortMode = DateDesc | AddedDesc

  /** Only the exact value "date_desc" selects the date order. */
  function ModeOf(sort: Option<string>): SortMode {
    if sort == Some("date_desc") then DateDesc else AddedDesc
  }

  /** The fields a listing is sorted on. */
  datatype Rank = Rank(date: string, createdAt: nat)

  function RankOf(r: Record): Rank {
    Rank(r.date, r.createdAt)
  }

  /** `a` may be listed before `b`: descending by date then by creation
      time, or descending by creation time alone. */
  predicate Precedes(mode: SortMode, a: Rank, b: Rank) {
    match mode
    case AddedDesc => a.createdAt >= b.createdAt
    case DateDesc =>
      if a.date == b.date then a.createdAt >= b.createdAt else StrLe(b.date, a.date)
  }

  lemma PrecedesTotal(mode: SortMode, a: Rank, b: Rank)
    ensures Precedes(mode, a, b) || Precedes(mode, b, a)
  {
    StrLeTotal(a.date, b.date);
  }

  lemma PrecedesTrans(mode: SortMode, a: Rank, b: Rank, c: Rank)
    requires Precedes(mode, a, b) && Precedes(mode, b, c)
    ensures Precedes(mode, a, c)
  {
    if mode == DateDesc {
      if a.date != b.date && b.date != c.date {
        StrLeTrans(c.date, b.date, a.date);
        if a.date == c.date {
          StrLeAntisym(b.date, c.date);
        }
      }
    }
  }

  predicate Sorted(mode: SortMode, s: seq<Record>) {
    forall i, j :: 0 <= i < j < |s| ==> Precedes(mode, RankOf(s[i]), RankOf(s[j]))
  }

  /** A record that may precede everything in a sorted sequence heads a sorted sequence. */
  lemma ConsSorted(mode: SortMode, h: Record, t: seq<Record>)
    requires Sorted(mode, t)
    requires forall y :: y in t ==> Precedes(mode, RankOf(h), RankOf(y))
    ensures Sorted(mode, [h] + t)
  {
  }

  /** A record that may precede the head of a sorted sequence may precede all of it. */
  lemma PrecedesAll(mode: SortMode, x: Record, s: seq<Record>)
    requires Sorted(mode, s) && s != [] && Precedes(mode, RankOf(x), RankOf(s[0]))
    ensures forall y :: y in s ==> Precedes(mode, RankOf(x), RankOf(y))
  {
    forall y | y in s
      ensures Precedes(mode, RankOf(x), RankOf(y))
    {
      var k :| 0 <= k < |s| && s[k] == y;
      if k > 0 {
        PrecedesTrans(mode, RankOf(x), RankOf(s[0]), RankOf(y));
      }
    }
  }

  /** The head of a sorted sequence may precede the tail with `x` added, once it may precede `x`. */
  lemma HeadPrecedesRest(mode: SortMode, x: Record, s: seq<Record>, t: seq<Record>)
    requires Sorted(mode, s) && s != [] && Precedes(mode, RankOf(s[0]), RankOf(x))
    requires multiset(t) == multiset(s[1..]) + multiset{x}
    ensures forall y :: y in t ==> Precedes(mode, RankOf(s[0]), RankOf(y))
  {
    forall y | y in t
      ensures Precedes(mode, RankOf(s[0]), RankOf(y))
    {
      assert y in multiset(t);
      if y != x {
        assert y in multiset(s[1..]);
        var k :| 0 <= k < |s[1..]| && s[1..][k] == y;
        assert s[k + 1] == y;
      }
    }
  }

  /** Inserts `x` into a sorted sequence after the records that precede it. */
  function Insert(mode: SortMode, x: Record, s: seq<Record>): (r: seq<Record>)
    requires Sorted(mode, s)
    ensures Sorted(mode, r)
    ensures multiset(r) == multiset(s) + multiset{x}
  {
    if s == [] then [x]
    else if Precedes(mode, RankOf(x), RankOf(s[0])) then
      PrecedesAll(mode, x, s);
      ConsSorted(mode, x, s);
      [x] + s
    else
      PrecedesTotal(mode, RankOf(x), RankOf(s[0]));
      assert s == [s[0]] + s[1..];
      var t := Insert(mode, x, s[1..]);
      HeadPrecedesRest(mode, x, s, t);
      ConsSorted(mode, s[0], t);
      [s[0]] + t
  }

  /** Insertion sort: a sorted permutation of its input. */
  function SortBy(mode: SortMode, s: seq<Record>): (r: seq<Record>)
    ensures Sorted(mode, r)
    ensures multiset(r) == multiset(s)
  {
    if s == [] then []
    else
      assert s == [s[0]] + s[1..];
      Insert(mode, s[0], SortBy(mode, s[1..]))
  }

  /** The projection of every record, in order. */
  function Project(s: seq<Record>): (v: seq<Listed>)
    ensures |v| == |s|
    ensures forall i :: 0 <= i < |s| ==> v[i] == Show(s[i])
  {
    seq(|s|, i requires 0 <= i < |s| => Show(s[i]))
  }

  lemma ProjectConcat(a: seq<Record>, b: seq<Record>)
    ensures Project(a + b) == Project(a) + Project(b)
  {
  }

  /** Projecting two permutations of each other gives permutations of each other. */
  lemma {:induction false} ProjectPreservesPermutation(a: seq<Record>, b: seq<Record>)
    requires multiset(a) == multiset(b)
    ensures multiset(Project(a)) == multiset(Project(b))
    decreases |a|
  {
    if a != [] {
      var x := a[0];
      assert x in multiset(b);
      var k :| 0 <= k < |b| && b[k] == x;
      var rest := b[..k] + b[k + 1..];
      assert b == b[..k] + [x] + b[k + 1..];
      assert a == [x] + a[1..];
      assert multiset(b) == multiset(b[..k]) + multiset([x]) + multiset(b[k + 1..]);
      assert multiset(rest) == multiset(b[..k]) + multiset(b[k + 1..]);
      assert multiset(a) == multiset([x]) + multiset(a[1..]);
      assert multiset(a[1..]) == multiset(a) - multiset{x};
      assert multiset(rest) == multiset(b) - multiset{x};
      ProjectPreservesPermutation(a[1..], rest);
      ProjectConcat([x], a[1..]);
      ProjectConcat(b[..k], b[k + 1..]);
      ProjectConcat(b[..k] + [x], b[k + 1..]);
      ProjectConcat(b[..k], [x]);
    }
  }

  /** Every sorted listing is ordered the way the query asked for. */
  lemma SortedOrder(sort: Option<string>, s: seq<Record>)
    requires Sorted(ModeOf(sort), s)
    ensures sort == Some("date_desc") ==>
      forall i, j :: 0 <= i < j < |s| ==>
        StrLe(s[j].date, s[i].date) && (s[i].date == s[j].date ==> s[i].createdAt >= s[j].createdAt)
    ensures sort != Some("date_desc") ==>
      forall i, j :: 0 <= i < j < |s| ==> s[i].createdAt >= s[j].createdAt
  {
    forall i, j | 0 <= i < j < |s|
      ensures StrLe(s[j].date, s[i].date) || sort != Some("date_desc")
    {
      assert Precedes(ModeOf(sort), RankOf(s[i]), RankOf(s[j]));
      StrLeRefl(s[i].date);
    }
  }

  /** The listing: the matching records, ordered as asked, projected. With
      "date_desc" dates are non-increasing and equal dates have
      non-increasing creation times; otherwise creation times are
      non-increasing. Exactly the matching records appear, each once per
      stored copy. */
  function List(records: seq<Record>, category: Option<string>, sort: Option<string>): (r: seq<Listed>)
    ensures multiset(r) == multiset(Project(Select(records, category)))
    ensures sort == Some("date_desc") ==>
      forall i, j :: 0 <= i < j < |r| ==>
        StrLe(r[j].date, r[i].date) && (r[i].date == r[j].date ==> r[i].createdAt >= r[j].createdAt)
    ensures sort != Some("date_desc") ==>
      forall i, j :: 0 <= i < j < |r| ==> r[i].createdAt >= r[j].createdAt
  {
    var selected := Select(records, category);
    var sorted := SortBy(ModeOf(sort), selected);
    ProjectPreservesPermutation(sorted, selected);
    SortedOrder(sort, sorted);
    Project(sorted)
  }

  /** An item is in a projection exactly when some record projects to it. */
  lemma ProjectMember(s: seq<Record>, v: Listed)
    ensures v in Project(s) <==> exists x :: x in s && Show(x) == v
  {
    if v in Project(s) {
      var i :| 0 <= i < |s| && Project(s)[i] == v;
      assert s[i] in s;
    }
    if exists x :: x in s && Show(x) == v {
      var x :| x in s && Show(x) == v;
      var i :| 0 <= i < |s| && s[i] == x;
      assert Project(s)[i] == v;
    }
  }

  /** An item is listed exactly when some stored record that the filter
      admits projects to it. */
  lemma ListMembership(records: seq<Record>, category: Option<string>, sort: Option<string>, v: Listed)
    ensures v in List(records, category, sort) <==>
      exists x :: x in records && Matches(category, x) && Show(x) == v
  {
    var selected := Select(records, category);
    var l := List(records, category, sort);
    assert v in l <==> v in multiset(l);
    assert v in l <==> v in Project(selected);
    ProjectMember(selected, v);
    assert forall x :: x in selected <==> x in multiset(selected);
    assert forall x :: x in records <==> x in multiset(records);
  }

  /** With a truthy category, the listing holds that category and nothing
      else, and every record of that category is listed. */
  lemma ListByCategory(records: seq<Record>, category: string, sort: Option<string>)
    requires category != ""
    ensures forall v :: v in List(records, Some(category), sort) ==> v.category == category
    ensures forall x :: x in records && x.category == category ==> Show(x) in List(records, Some(category), sort)
  {
    forall v | v in List(records, Some(category), sort)
      ensures v.category == category
    {
      ListMembership(records, Some(category), sort, v);
    }
    forall x | x in records && x.category == category
      ensures Show(x) in List(records, Some(category), sort)
    {
      ListMembership(records, Some(category), sort, Show(x));
    }
  }

  /** Without a truthy category, the listing holds every stored record. */
  lemma ListAll(records: seq<Record>, category: Option<string>, sort: Option<string>)
    requires !TextTruthy(category)
    ensures multiset(List(records, category, sort)) == multiset(Project(records))
    ensures |List(records, category, sort)| == |records|
  {
    var selected := Select(records, category);
    assert multiset(selected) == multiset(records);
    ProjectPreservesPermutation(selected, records);
    assert |multiset(List(records, category, sort))| == |multiset(Project(records))|;
  }
}
