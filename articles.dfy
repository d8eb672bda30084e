/** The `articles` table of the migration and the `Article` model: a record per row, the
    constraints the database enforces (primary key, unique slug, the `status` enum, the
    self-referencing `generated_from_id` key with `ON DELETE SET NULL`), the queries the
    controller and the commands run, and a class for the table that those callers change. */
module Articles {
  import opened Wrappers
  import opened Seqs

  /** The values of the `status` enum column. */
  datatype Status = Original | Generated

  function StatusName(s: Status): string {
    match s
    case Original => "original"
    case Generated => "generated"
  }

  /** The enum column's check: a string is stored only when it names a status. */
  function ParseStatus(s: string): (r: Option<Status>)
    ensures r.Some? <==> s == "original" || s == "generated"
    ensures r.Some? ==> StatusName(r.value) == s
    ensures forall t :: StatusName(t) == s ==> r == Some(t)
  {
    if s == "original" then Some(Original)
    else if s == "generated" then Some(Generated)
    else None
  }

  /** One row. `createdAt` and `updatedAt` are the `timestamps()` columns, in seconds. */
  datatype Article = Article(
    id: nat,
    title: string,
    slug: string,
    originalUrl: string,
    originalContent: string,
    generatedContent: Option<string>,
    generatedFromId: Option<nat>,
    status: Status,
    createdAt: int,
    updatedAt: int)

  /** The attributes an `Article::create` call supplies; `status` is still the string the caller
      gave, which the enum column accepts or refuses. */
  datatype Draft = Draft(
    title: string,
    slug: string,
    originalUrl: string,
    originalContent: string,
    generatedContent: Option<string>,
    generatedFromId: Option<int>,
    status: string)

  /** The attributes an `$article->update(...)` call supplies: `None` leaves a column alone. */
  datatype Changes = Changes(
    title: Option<string>,
    originalContent: Option<string>,
    generatedContent: Option<Option<string>>,
    status: Option<string>,
    generatedFromId: Option<Option<int>>)

  // ---------------------------------------------------------------- the constraints

  predicate HasId(rows: seq<Article>, id: int) {
    exists a :: a in rows && a.id == id
  }

  predicate SlugTaken(rows: seq<Article>, slug: string) {
    exists a :: a in rows && a.slug == slug
  }

  /** Rows are kept in the order of their auto-incremented ids, so ids are distinct. */
  predicate IdsAscending(rows: seq<Article>) {
    forall i, j :: 0 <= i < j < |rows| ==> rows[i].id < rows[j].id
  }

  /** `$table->string('slug')->unique()`. */
  predicate SlugsUnique(rows: seq<Article>) {
    forall i, j :: 0 <= i < j < |rows| ==> rows[i].slug != rows[j].slug
  }

  /** The foreign key: a `generated_from_id` that is set names a row of the table. */
  predicate LinksResolve(rows: seq<Article>) {
    forall a :: a in rows && a.generatedFromId.Some? ==> HasId(rows, a.generatedFromId.value)
  }

  predicate Consistent(rows: seq<Article>) {
    IdsAscending(rows) && SlugsUnique(rows) && LinksResolve(rows)
  }

  /** What the database checks on `INSERT`: a free slug, a status the enum knows, and a
      `generated_from_id` that is null or names a row. */
  predicate Insertable(rows: seq<Article>, d: Draft) {
    && !SlugTaken(rows, d.slug)
    && ParseStatus(d.status).Some?
    && (d.generatedFromId.Some? ==> HasId(rows, d.generatedFromId.value))
  }

  /** What the database checks on `UPDATE` of the columns `update` may touch. */
  predicate Updatable(rows: seq<Article>, c: Changes) {
    && (c.status.Some? ==> ParseStatus(c.status.value).Some?)
    && (c.generatedFromId.Some? && c.generatedFromId.value.Some? ==> HasId(rows, c.generatedFromId.value.value))
  }

  // ---------------------------------------------------------------- the queries

  /** `Article::find($id)`. */
  function Find(rows: seq<Article>, id: int): (r: Option<Article>)
    ensures r.Some? <==> HasId(rows, id)
    ensures r.Some? ==> r.value in rows && r.value.id == id
  {
    if rows == [] then None
    else if rows[0].id == id then Some(rows[0])
    else
      var r := Find(rows[1..], id);
      assert forall a :: a in rows && a != rows[0] ==> a in rows[1..];
      r
  }

  /** With distinct ids, `find` returns the one row that carries the id. */
  lemma {:induction false} FindRow(rows: seq<Article>, a: Article)
    requires IdsAscending(rows) && a in rows
    ensures Find(rows, a.id) == Some(a)
  {
    if rows[0] != a {
      assert a in rows[1..];
      assert rows[0].id != a.id by {
        var k :| 0 <= k < |rows| && rows[k] == a;
      }
      FindRow(rows[1..], a);
    }
  }

  /** The row built from a draft that the database accepted. */
  function Materialize(d: Draft, id: nat, now: int): (a: Article)
    requires ParseStatus(d.status).Some?
    requires d.generatedFromId.Some? ==> d.generatedFromId.value >= 0
    ensures a.id == id && a.title == d.title && a.slug == d.slug && a.originalUrl == d.originalUrl
    ensures a.originalContent == d.originalContent && a.generatedContent == d.generatedContent
    ensures StatusName(a.status) == d.status
    ensures a.generatedFromId.Some? <==> d.generatedFromId.Some?
    ensures a.generatedFromId.Some? ==> a.generatedFromId.value == d.generatedFromId.value
    ensures a.createdAt == now && a.updatedAt == now
  {
    Article(id, d.title, d.slug, d.originalUrl, d.originalContent, d.generatedContent,
            if d.generatedFromId.Some? then Some(d.generatedFromId.value as nat) else None,
            ParseStatus(d.status).value, now, now)
  }

  /** Eloquent's `update` on one row: the supplied columns are written, and `updated_at` moves
      to `now` only when some value actually changed. */
  function Apply(a: Article, c: Changes, now: int): (r: Article)
    requires c.generatedFromId.Some? && c.generatedFromId.value.Some? ==> c.generatedFromId.value.value >= 0
    ensures r.id == a.id && r.slug == a.slug && r.originalUrl == a.originalUrl && r.createdAt == a.createdAt
    ensures r.updatedAt == a.updatedAt || r.updatedAt == now
    ensures r.(updatedAt := a.updatedAt) == a ==> r == a
    ensures r.(updatedAt := a.updatedAt) != a ==> r.updatedAt == now
  {
    var b := a.(
      title := if c.title.Some? then c.title.value else a.title,
      originalContent := if c.originalContent.Some? then c.originalContent.value else a.originalContent,
      generatedContent := if c.generatedContent.Some? then c.generatedContent.value else a.generatedContent,
      status := if c.status.Some? && ParseStatus(c.status.value).Some? then ParseStatus(c.status.value).value else a.status,
      generatedFromId :=
        if c.generatedFromId.Some? then
          (if c.generatedFromId.value.Some? then Some(c.generatedFromId.value.value as nat) else None)
        else a.generatedFromId);
    if b == a then a else b.(updatedAt := now)
  }

  /** `UPDATE articles SET ... WHERE id = ?`. */
  function Patched(rows: seq<Article>, id: nat, c: Changes, now: int): (r: seq<Article>)
    requires Updatable(rows, c)
    ensures |r| == |rows|
  {
    seq(|rows|, i requires 0 <= i < |rows| => if rows[i].id == id then Apply(rows[i], c, now) else rows[i])
  }

  /** `ON DELETE SET NULL` for one referencing row. */
  function Unlink(a: Article, id: nat): Article {
    if a.generatedFromId == Some(id) then a.(generatedFromId := None) else a
  }

  /** `DELETE FROM articles WHERE id = ?`, with the foreign key's `SET NULL` applied to the rows
      that pointed at the deleted one. */
  function Deleted(rows: seq<Article>, id: nat): (r: seq<Article>)
    ensures |r| <= |rows|
  {
    if rows == [] then []
    else (if rows[0].id == id then [] else [Unlink(rows[0], id)]) + Deleted(rows[1..], id)
  }

  /** `whereDoesntHave('generatedVersions')` fails for `a`: some row was generated from it. */
  predicate HasGeneratedVersion(rows: seq<Article>, a: Article) {
    exists b :: b in rows && b.generatedFromId == Some(a.id)
  }

  /** A row the "oldest original without a generated version" query may return. */
  predicate Candidate(rows: seq<Article>, a: Article) {
    a in rows && a.status == Original && !HasGeneratedVersion(rows, a)
  }

  /** `orderBy('created_at', 'asc')->first()`: a row with the earliest `created_at`, the first such
      one in table order. */
  function Oldest(s: seq<Article>): (r: Option<Article>)
    ensures r.None? <==> s == []
    ensures r.Some? ==> r.value in s && forall b :: b in s ==> r.value.createdAt <= b.createdAt
  {
    if s == [] then None
    else
      var rest := Oldest(s[1..]);
      if rest.Some? && rest.value.createdAt < s[0].createdAt then rest else Some(s[0])
  }

  /** `Article::where('status', 'original')->whereDoesntHave('generatedVersions')
      ->orderBy('created_at', 'asc')->first()`, shared by the controller and `process:latest`. */
  function LatestUngenerated(rows: seq<Article>): (r: Option<Article>)
    ensures r.None? <==> forall a :: a in rows ==> !Candidate(rows, a)
    ensures r.Some? ==> Candidate(rows, r.value)
    ensures r.Some? ==> forall b :: Candidate(rows, b) ==> r.value.createdAt <= b.createdAt
  {
    Oldest(Filter(rows, (a: Article) => a.status == Original && !HasGeneratedVersion(rows, a)))
  }

  /** Ordered by `created_at`, latest first. */
  predicate NewestFirst(s: seq<Article>) {
    forall i, j :: 0 <= i < j < |s| ==> s[i].createdAt >= s[j].createdAt
  }

  /** Puts `a` before the first row that is not newer than it. */
  function InsertNewestFirst(a: Article, s: seq<Article>): (r: seq<Article>)
    ensures multiset(r) == multiset(s) + multiset{a}
    ensures NewestFirst(s) ==> NewestFirst(r)
  {
    if s == [] || s[0].createdAt <= a.createdAt then
      assert NewestFirst(s) ==> NewestFirst([a] + s) by {
        if NewestFirst(s) && s != [] {
          forall i, j | 0 <= i < j < |s| + 1 ensures ([a] + s)[i].createdAt >= ([a] + s)[j].createdAt {
            if i > 0 { assert ([a] + s)[i] == s[i - 1]; }
            assert ([a] + s)[j] == s[j - 1];
          }
        }
      }
      [a] + s
    else
      var rest := InsertNewestFirst(a, s[1..]);
      assert s == [s[0]] + s[1..];
      InsertKeepsNewestFirst(a, s, rest);
      [s[0]] + rest
  }

  lemma InsertKeepsNewestFirst(a: Article, s: seq<Article>, rest: seq<Article>)
    requires s != [] && s[0].createdAt > a.createdAt
    requires multiset(rest) == multiset(s[1..]) + multiset{a}
    requires NewestFirst(s[1..]) ==> NewestFirst(rest)
    ensures NewestFirst(s) ==> NewestFirst([s[0]] + rest)
  {
    if NewestFirst(s) {
      assert NewestFirst(s[1..]) by {
        forall i, j | 0 <= i < j < |s| - 1 ensures s[1..][i].createdAt >= s[1..][j].createdAt {
          assert s[1..][i] == s[i + 1] && s[1..][j] == s[j + 1];
        }
      }
      var r := [s[0]] + rest;
      forall j | 1 <= j < |r| ensures r[0].createdAt >= r[j].createdAt {
        var b := r[j];
        assert b == rest[j - 1];
        assert b in multiset(rest);
        if b != a {
          assert b in multiset(s[1..]);
          var k :| 0 <= k < |s| - 1 && s[1..][k] == b;
          assert s[k + 1] == b;
        }
      }
      forall i, j | 0 <= i < j < |r| ensures r[i].createdAt >= r[j].createdAt {
        if i > 0 {
          assert r[i] == rest[i - 1] && r[j] == rest[j - 1];
        }
      }
    }
  }

  /** `orderBy('created_at', 'desc')`: an insertion sort, so rows with the same `created_at` keep
      their table order. */
  function SortNewestFirst(s: seq<Article>): (r: seq<Article>)
    ensures multiset(r) == multiset(s)
    ensures NewestFirst(r)
  {
    if s == [] then []
    else
      assert s == [s[0]] + s[1..];
      InsertNewestFirst(s[0], SortNewestFirst(s[1..]))
  }

  // ---------------------------------------------------------------- the invariants kept

  /** Adding a row the database accepted, under a fresh id, keeps every constraint. */
  lemma InsertKeepsConsistent(rows: seq<Article>, d: Draft, id: nat, now: int)
    requires Consistent(rows) && Insertable(rows, d)
    requires forall a :: a in rows ==> a.id < id
    ensures Consistent(rows + [Materialize(d, id, now)])
  {
    var a := Materialize(d, id, now);
    var r := rows + [a];
    assert forall b :: b in r ==> b in rows || b == a;
    forall b | b in r && b.generatedFromId.Some? ensures HasId(r, b.generatedFromId.value) {
      if b in rows {
        var c :| c in rows && c.id == b.generatedFromId.value;
        assert c in r;
      } else {
        var c :| c in rows && c.id == d.generatedFromId.value;
        assert c in r;
      }
    }
    forall i, j | 0 <= i < j < |r| ensures r[i].slug != r[j].slug && r[i].id < r[j].id {
      if j == |rows| {
        assert r[i] in rows;
      }
    }
  }

  /** An update the database accepted never touches ids or slugs and keeps every constraint. */
  lemma PatchKeepsConsistent(rows: seq<Article>, id: nat, c: Changes, now: int)
    requires Consistent(rows) && Updatable(rows, c)
    ensures var r := Patched(rows, id, c, now);
            && (forall i :: 0 <= i < |r| ==> r[i].id == rows[i].id && r[i].slug == rows[i].slug)
            && Consistent(r)
  {
    var r := Patched(rows, id, c, now);
    PatchKeepsKeys(rows, id, c, now);
    assert IdsAscending(r) && SlugsUnique(r);
    PatchKeepsLinks(rows, id, c, now);
  }

  lemma PatchKeepsKeys(rows: seq<Article>, id: nat, c: Changes, now: int)
    requires Updatable(rows, c)
    ensures var r := Patched(rows, id, c, now);
            forall i :: 0 <= i < |r| ==> r[i].id == rows[i].id && r[i].slug == rows[i].slug
  {
  }

  /** Every link the update leaves or sets still names a row. */
  lemma PatchKeepsLinks(rows: seq<Article>, id: nat, c: Changes, now: int)
    requires LinksResolve(rows) && Updatable(rows, c)
    ensures LinksResolve(Patched(rows, id, c, now))
  {
    var r := Patched(rows, id, c, now);
    PatchKeepsKeys(rows, id, c, now);
    forall b | b in r && b.generatedFromId.Some? ensures HasId(r, b.generatedFromId.value) {
      var i :| 0 <= i < |r| && r[i] == b;
      var g := b.generatedFromId.value;
      var e :| e in rows && e.id == g;
      var k :| 0 <= k < |rows| && rows[k] == e;
      assert r[k] in r && r[k].id == g;
    }
  }

  lemma {:induction false} DeletedElements(rows: seq<Article>, id: nat)
    ensures forall b :: b in Deleted(rows, id) <==> exists a :: a in rows && a.id != id && b == Unlink(a, id)
  {
    if rows != [] {
      DeletedElements(rows[1..], id);
      assert rows == [rows[0]] + rows[1..];
      forall b | b in Deleted(rows, id) ensures exists a :: a in rows && a.id != id && b == Unlink(a, id) {
        if rows[0].id == id || b != Unlink(rows[0], id) {
          assert b in Deleted(rows[1..], id);
          var a :| a in rows[1..] && a.id != id && b == Unlink(a, id);
          assert a in rows;
        }
      }
      forall b | exists a :: a in rows && a.id != id && b == Unlink(a, id) ensures b in Deleted(rows, id) {
        var a :| a in rows && a.id != id && b == Unlink(a, id);
        if a != rows[0] {
          assert a in rows[1..];
        }
      }
    }
  }

  /** Deleting removes the row with the id and no other, and leaves no row pointing at it: every
      other row stays, with its link to the deleted row (if any) set to null. */
  lemma DeleteRemovesOnlyTarget(rows: seq<Article>, id: nat)
    ensures forall x :: HasId(Deleted(rows, id), x) <==> HasId(rows, x) && x != id
    ensures forall a :: a in rows && a.id != id ==> Unlink(a, id) in Deleted(rows, id)
    ensures forall b :: b in Deleted(rows, id) ==> b.generatedFromId != Some(id)
  {
    var r := Deleted(rows, id);
    DeletedElements(rows, id);
    forall x ensures HasId(r, x) <==> HasId(rows, x) && x != id {
      if HasId(r, x) {
        var b :| b in r && b.id == x;
        var a :| a in rows && a.id != id && b == Unlink(a, id);
      }
      if HasId(rows, x) && x != id {
        var a :| a in rows && a.id == x;
        assert Unlink(a, id) in r;
      }
    }
  }

  /** A row placed before rows it precedes in id and differs from in slug keeps both keys valid. */
  lemma ConsKeepsKeys(h: Article, rest: seq<Article>)
    requires IdsAscending(rest) && SlugsUnique(rest)
    requires forall b :: b in rest ==> h.id < b.id && h.slug != b.slug
    ensures IdsAscending([h] + rest) && SlugsUnique([h] + rest)
  {
    var r := [h] + rest;
    forall i, j | 0 <= i < j < |r| ensures r[i].id < r[j].id && r[i].slug != r[j].slug {
      assert r[j] == rest[j - 1];
      if i > 0 {
        assert r[i] == rest[i - 1];
      }
    }
  }

  /** The first row of valid rows precedes every later one in id and differs from it in slug. */
  lemma HeadBounds(h: Article, tail: seq<Article>)
    requires IdsAscending([h] + tail) && SlugsUnique([h] + tail)
    ensures IdsAscending(tail) && SlugsUnique(tail)
    ensures forall a :: a in tail ==> h.id < a.id && h.slug != a.slug
  {
    var r := [h] + tail;
    forall i | 0 <= i < |tail| ensures tail[i] == r[i + 1] { }
    forall a | a in tail ensures h.id < a.id && h.slug != a.slug {
      var k :| 0 <= k < |tail| && tail[k] == a;
      assert r[0] == h && r[k + 1] == a;
    }
  }

  /** Deleting from rows that all exceed `h` in id and differ from it in slug leaves such rows. */
  lemma DeletedKeepsBound(h: Article, tail: seq<Article>, id: nat)
    requires forall a :: a in tail ==> h.id < a.id && h.slug != a.slug
    ensures forall b :: b in Deleted(tail, id) ==> h.id < b.id && h.slug != b.slug
  {
    DeletedElements(tail, id);
    forall b | b in Deleted(tail, id) ensures h.id < b.id && h.slug != b.slug {
      var a :| a in tail && a.id != id && b == Unlink(a, id);
    }
  }

  /** Deleting keeps the remaining rows' ids in order and their slugs distinct. */
  lemma {:induction false} DeletedKeepsKeys(rows: seq<Article>, id: nat)
    requires IdsAscending(rows) && SlugsUnique(rows)
    ensures IdsAscending(Deleted(rows, id)) && SlugsUnique(Deleted(rows, id))
  {
    if rows != [] {
      var h, tail := rows[0], rows[1..];
      assert rows == [h] + tail;
      HeadBounds(h, tail);
      DeletedKeepsKeys(tail, id);
      if h.id != id {
        DeletedKeepsBound(h, tail, id);
        ConsKeepsKeys(Unlink(h, id), Deleted(tail, id));
      }
    }
  }

  /** Deleting a row keeps every constraint: the remaining rows keep their ids and slugs, and the
      links to the deleted row are the ones set to null. */
  lemma DeleteKeepsConsistent(rows: seq<Article>, id: nat)
    requires Consistent(rows)
    ensures Consistent(Deleted(rows, id))
  {
    var r := Deleted(rows, id);
    DeletedKeepsKeys(rows, id);
    DeletedElements(rows, id);
    forall b | b in r && b.generatedFromId.Some? ensures HasId(r, b.generatedFromId.value) {
      var a :| a in rows && a.id != id && b == Unlink(a, id);
      var g := b.generatedFromId.value;
      assert g != id && a.generatedFromId == Some(g);
      var e :| e in rows && e.id == g;
      assert Unlink(e, id) in r;
    }
  }

  // ---------------------------------------------------------------- the table

  /** The `articles` table as the application changes it: the rows in id order and the next
      value of the auto-increment counter. */
  class Table {
    var rows: seq<Article>
    var nextId: nat

    ghost predicate Valid()
      reads this
    {
      Consistent(rows) && nextId >= 1 && forall a :: a in rows ==> a.id < nextId
    }

    /** The table as the migration creates it. */
    constructor ()
      ensures Valid() && rows == [] && nextId == 1
    {
      rows := [];
      nextId := 1;
    }

    /** `Article::create(...)`: the database either stores the row under the next id, or refuses
        it for a taken slug, an unknown status or a dangling `generated_from_id`. */
    method Insert(d: Draft, now: int) returns (id: Option<nat>)
      requires Valid()
      modifies this
      ensures Valid()
      ensures id.Some? <==> Insertable(old(rows), d)
      ensures id.Some? ==> id.value == old(nextId) && nextId == old(nextId) + 1
                           && rows == old(rows) + [Materialize(d, old(nextId), now)]
      ensures id.None? ==> rows == old(rows) && nextId == old(nextId)
    {
      if !Insertable(rows, d) {
        return None;
      }
      assert d.generatedFromId.Some? ==> d.generatedFromId.value >= 0 by {
        if d.generatedFromId.Some? {
          var e :| e in rows && e.id == d.generatedFromId.value;
        }
      }
      InsertKeepsConsistent(rows, d, nextId, now);
      rows := rows + [Materialize(d, nextId, now)];
      id := Some(nextId);
      nextId := nextId + 1;
    }

    /** `$article->update(...)` on the row `id`: the database refuses a status outside the enum
        and a dangling `generated_from_id`; otherwise the row is rewritten. */
    method Update(id: nat, c: Changes, now: int) returns (ok: bool)
      requires Valid()
      modifies this
      ensures Valid() && nextId == old(nextId)
      ensures ok <==> Updatable(old(rows), c)
      ensures ok ==> rows == Patched(old(rows), id, c, now)
      ensures !ok ==> rows == old(rows)
    {
      if !Updatable(rows, c) {
        return false;
      }
      PatchKeepsConsistent(rows, id, c, now);
      rows := Patched(rows, id, c, now);
      ok := true;
    }

    /** `$article->delete()` on the row `id`. */
    method Delete(id: nat)
      requires Valid()
      modifies this
      ensures Valid() && nextId == old(nextId)
      ensures rows == Deleted(old(rows), id)
    {
      DeleteKeepsConsistent(rows, id);
      DeletedElements(rows, id);
      rows := Deleted(rows, id);
    }
  }
}
