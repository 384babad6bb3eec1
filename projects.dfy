/**
 * The project records of the portfolio gallery and the pure decisions made
 * about them: which records a category filter keeps, how a description is
 * truncated for the first display, and which link buttons a card gets.
 */
module Projects {
  import opened Wrappers

  /** One record of the catalogue. `github` and `demo` are `null` in the catalogue when absent. */
  datatype Project = Project(
    id: int,
    title: string,
    category: string,
    description: string,
    github: Option<string>,
    demo: Option<string>)

  /** The filter value that stands for "every category". */
  const AllFilter: string := "all"

  /** Descriptions longer than this many characters are truncated. */
  const MaxLength: nat := 200

  /** What a truncated description ends with. */
  const Ellipsis: string := "..."

  /** `a` can be obtained from `b` by deleting elements (keeps relative order). */
  predicate IsSubsequence<T(==)>(a: seq<T>, b: seq<T>)
    decreases |b|
  {
    if a == [] then true
    else if b == [] then false
    else if a[0] == b[0] then IsSubsequence(a[1..], b[1..])
    else IsSubsequence(a, b[1..])
  }

  /** The records whose category is `c`, in their original order. */
  function KeepCategory(ps: seq<Project>, c: string): (r: seq<Project>)
    ensures |r| <= |ps|
    ensures forall i :: 0 <= i < |r| ==> r[i].category == c
    ensures IsSubsequence(r, ps)
    ensures forall p: Project :: p.category == c ==> multiset(r)[p] == multiset(ps)[p]
    decreases |ps|
  {
    if ps == [] then []
    else
      var rest := KeepCategory(ps[1..], c);
      assert ps == [ps[0]] + ps[1..];
      if ps[0].category == c then
        var r := [ps[0]] + rest;
        assert r[1..] == rest;
        r
      else rest
  }

  /**
   * The gallery's filter step: `"all"` keeps the list as it is, any other
   * value keeps exactly the records of that category, in order.
   */
  function Filter(ps: seq<Project>, filter: string): (r: seq<Project>)
    ensures filter == AllFilter ==> r == ps
    ensures filter != AllFilter ==>
      && |r| <= |ps|
      && (forall i :: 0 <= i < |r| ==> r[i].category == filter)
      && IsSubsequence(r, ps)
      && (forall p: Project :: p.category == filter ==> multiset(r)[p] == multiset(ps)[p])
  {
    if filter == AllFilter then ps else KeepCategory(ps, filter)
  }

  /** Filtering a filtered list by the same category changes nothing. */
  lemma {:induction false} KeepCategoryIdempotent(ps: seq<Project>, c: string)
    ensures KeepCategory(KeepCategory(ps, c), c) == KeepCategory(ps, c)
    decreases |ps|
  {
    if ps != [] {
      KeepCategoryIdempotent(ps[1..], c);
      var rest := KeepCategory(ps[1..], c);
      if ps[0].category == c {
        var r := [ps[0]] + rest;
        assert r[1..] == rest;
      }
    }
  }

  /** A list whose records all belong to `c` passes the filter for `c` unchanged. */
  lemma {:induction false} KeepCategoryOfUniformList(ps: seq<Project>, c: string)
    requires forall i :: 0 <= i < |ps| ==> ps[i].category == c
    ensures KeepCategory(ps, c) == ps
    decreases |ps|
  {
    if ps != [] {
      KeepCategoryOfUniformList(ps[1..], c);
      assert ps == [ps[0]] + ps[1..];
    }
  }

  /** The description as first shown on a card. */
  function Truncate(d: string): (r: string)
    ensures |d| <= MaxLength ==> r == d
    ensures |d| > MaxLength ==>
      && |r| == MaxLength + |Ellipsis| == 203
      && r[..MaxLength] == d[..MaxLength]
      && r[MaxLength..] == Ellipsis
  {
    if |d| > MaxLength then d[..MaxLength] + Ellipsis else d
  }

  /** Whether a card gets a "Read More" control. */
  predicate NeedsReadMore(d: string) {
    |d| > MaxLength
  }

  /**
   * Truncation leaves a description as it is exactly when it is short, or
   * when it is 203 characters long and already ends in the ellipsis.
   */
  lemma TruncateFixpoint(d: string)
    ensures Truncate(d) == d <==>
      |d| <= MaxLength || (|d| == MaxLength + |Ellipsis| && d[MaxLength..] == Ellipsis)
  {
  }

  /** JavaScript truthiness of an optional URL: `null` and `""` are both false. */
  predicate Truthy(u: Option<string>) {
    u.Some? && u.value != ""
  }

  datatype GithubButton = GithubLink(url: string) | PrivateRepo
  datatype DemoButton = DemoLink(url: string) | NoDemo

  /** The decisions a rendered card carries (its markup itself is not modelled). */
  datatype Card = Card(
    id: int,
    category: string,
    title: string,
    text: string,
    readMore: bool,
    github: GithubButton,
    demo: DemoButton)

  function GithubButtonFor(u: Option<string>): (b: GithubButton)
    ensures b.GithubLink? <==> Truthy(u)
    ensures b.GithubLink? ==> b.url == u.value
  {
    if Truthy(u) then GithubLink(u.value) else PrivateRepo
  }

  function DemoButtonFor(u: Option<string>): (b: DemoButton)
    ensures b.DemoLink? <==> Truthy(u)
    ensures b.DemoLink? ==> b.url == u.value
  {
    if Truthy(u) then DemoLink(u.value) else NoDemo
  }

  /** The card of one record. */
  function CreateCard(p: Project): (c: Card)
    ensures c.id == p.id && c.category == p.category && c.title == p.title
    ensures c.text == Truncate(p.description)
    ensures c.readMore <==> |p.description| > MaxLength
    ensures c.readMore <==> c.text != p.description || |p.description| == MaxLength + |Ellipsis|
    ensures c.github.GithubLink? <==> Truthy(p.github)
    ensures c.github.GithubLink? ==> c.github.url == p.github.value
    ensures c.demo.DemoLink? <==> Truthy(p.demo)
    ensures c.demo.DemoLink? ==> c.demo.url == p.demo.value
  {
    Card(p.id, p.category, p.title, Truncate(p.description),
         NeedsReadMore(p.description), GithubButtonFor(p.github), DemoButtonFor(p.demo))
  }

  /** `Array.prototype.find` by id: the first record with that id, if any. */
  function FindProject(ps: seq<Project>, id: int): (r: Option<Project>)
    ensures r.None? <==> forall i :: 0 <= i < |ps| ==> ps[i].id != id
    ensures r.Some? ==> r.value.id == id
    ensures r.Some? ==>
      exists i :: 0 <= i < |ps| && ps[i] == r.value && forall j :: 0 <= j < i ==> ps[j].id != id
    decreases |ps|
  {
    if ps == [] then None
    else if ps[0].id == id then Some(ps[0])
    else
      var r := FindProject(ps[1..], id);
      assert r.Some? ==> exists i :: 1 <= i < |ps| && ps[i] == r.value && forall j :: 0 <= j < i ==> ps[j].id != id by {
        if r.Some? {
          var k :| 0 <= k < |ps[1..]| && ps[1..][k] == r.value && forall j :: 0 <= j < k ==> ps[1..][j].id != id;
          assert ps[k + 1] == r.value;
          assert forall j :: 0 <= j < k + 1 ==> ps[j].id != id by {
            forall j | 0 <= j < k + 1 ensures ps[j].id != id {
              if j > 0 { assert ps[j] == ps[1..][j - 1]; }
            }
          }
        }
      }
      r
  }
}
