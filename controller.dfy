/** `ArticleController`: the six JSON endpoints over the `articles` table. The read-only ones are
    functions of the rows; `store`, `update` and `destroy` are methods on the table. Request
    validation follows Laravel's validator: `required` refuses a missing, null or blank value,
    `sometimes` skips a missing key, `nullable` lets null through, and the other rules are not
    applied to a blank string. */
module ArticleController {
  import opened Wrappers
  import opened Seqs
  import opened Text
  import opened Articles

  /** A request parameter: missing, sent as null, or sent with a value. */
  datatype Field<T> = Absent | Null | Given(value: T)

  /** The body of `POST /api/articles`. */
  datatype StoreRequest = StoreRequest(
    title: Field<string>,
    slug: Field<string>,
    originalUrl: Field<string>,
    originalContent: Field<string>,
    generatedContent: Field<string>,
    status: Field<string>,
    generatedFromId: Field<int>)

  /** The body of `PUT /api/articles/{id}`; `slug` and `original_url` have no rule, so they are
      never read. */
  datatype UpdateRequest = UpdateRequest(
    title: Field<string>,
    originalContent: Field<string>,
    generatedContent: Field<string>,
    status: Field<string>,
    generatedFromId: Field<int>)

  /** What an endpoint answers. */
  datatype Reply =
    | Record(code: int, data: Article)  // `success: true` with the row
    | Removed                           // `success: true`, "Article deleted successfully."
    | NotFound                          // 404
    | Invalid(fields: set<string>)      // 422, the validator's failing fields
    | ServerError                       // 500, the `catch` around the database call

  function Code(r: Reply): int {
    match r
    case Record(code, _) => code
    case Removed => 200
    case NotFound => 404
    case Invalid(_) => 422
    case ServerError => 500
  }

  /** The body of `GET /api/articles`. */
  datatype Listing = Listing(data: seq<Article>, count: nat)

  const MaxTitleLength: nat := 255

  /** Laravel treats a string that `trim` empties as blank. */
  predicate Blank(s: string) {
    Trim(s, PhpTrimSet) == ""
  }

  /** The `required` rule. */
  predicate Required(f: Field<string>) {
    f.Given? && !Blank(f.value)
  }

  predicate StatusValue(s: string) {
    s == "original" || s == "generated"
  }

  // ---------------------------------------------------------------- index, show, latest

  /** The `where` clauses `index` adds: `status` when the parameter is sent, and `status` again
      from `generated=true` or `generated=false`. */
  predicate Matches(a: Article, status: Option<string>, generated: Option<string>) {
    && (status.Some? ==> StatusName(a.status) == status.value)
    && (generated == Some("true") ==> a.status == Generated)
    && (generated == Some("false") ==> a.status == Original)
  }

  /** `index`: the rows that pass every filter, latest `created_at` first, and their number. */
  function Index(rows: seq<Article>, status: Option<string>, generated: Option<string>): (r: Listing)
    ensures r.count == |r.data|
    ensures forall a :: a in r.data <==> a in rows && Matches(a, status, generated)
    ensures forall a :: a in r.data ==> multiset(r.data)[a] == multiset(rows)[a]
    ensures NewestFirst(r.data)
  {
    var kept := Filter(rows, (a: Article) => Matches(a, status, generated));
    var data := SortNewestFirst(kept);
    forall a ensures a in data <==> a in rows && Matches(a, status, generated) {
      assert a in data <==> a in multiset(data);
      assert a in kept <==> a in multiset(kept);
    }
    Listing(data, |data|)
  }

  /** `show`: the row with the id, or 404. */
  function Show(rows: seq<Article>, id: int): (r: Reply)
    ensures r == NotFound <==> !HasId(rows, id)
    ensures r != NotFound ==> r.Record? && r.code == 200 && r.data in rows && r.data.id == id
  {
    match Find(rows, id)
    case None => NotFound
    case Some(a) => Record(200, a)
  }

  /** `getLatestUngenerated`: the oldest original row that nothing was generated from, or 404. */
  function GetLatestUngenerated(rows: seq<Article>): (r: Reply)
    ensures r == NotFound <==> forall a :: a in rows ==> !Candidate(rows, a)
    ensures r != NotFound ==> r.Record? && r.code == 200 && Candidate(rows, r.data)
    ensures r != NotFound ==> forall b :: Candidate(rows, b) ==> r.data.createdAt <= b.createdAt
  {
    match LatestUngenerated(rows)
    case None => NotFound
    case Some(a) => Record(200, a)
  }

  // ---------------------------------------------------------------- store

  /** The fields `store`'s rules refuse. */
  function StoreErrors(rows: seq<Article>, r: StoreRequest, isUrl: string -> bool): (errors: set<string>)
    ensures errors == {} ==> Required(r.title) && Required(r.slug) && Required(r.originalUrl)
                             && Required(r.originalContent) && Required(r.status)
  {
    (if Required(r.title) && |r.title.value| <= MaxTitleLength then {} else {"title"})
    + (if Required(r.slug) && !SlugTaken(rows, r.slug.value) then {} else {"slug"})
    + (if Required(r.originalUrl) && isUrl(r.originalUrl.value) then {} else {"original_url"})
    + (if Required(r.originalContent) then {} else {"original_content"})
    + (if Required(r.status) && StatusValue(r.status.value) then {} else {"status"})
    + (if r.generatedFromId.Given? && !HasId(rows, r.generatedFromId.value) then {"generated_from_id"} else {})
  }

  function ValueOr<T>(f: Field<T>, default: T): T {
    if f.Given? then f.value else default
  }

  function Nullable<T>(f: Field<T>): Option<T> {
    if f.Given? then Some(f.value) else None
  }

  /** `$validated`, as the attributes handed to `Article::create`. */
  function StoreDraft(r: StoreRequest): Draft {
    Draft(ValueOr(r.title, ""), ValueOr(r.slug, ""), ValueOr(r.originalUrl, ""), ValueOr(r.originalContent, ""),
          Nullable(r.generatedContent), Nullable(r.generatedFromId), ValueOr(r.status, ""))
  }

  /** The request is refused for each of the listed reasons, and a request that passes the rules
      is one the database accepts, so `store`'s 500 branch is never taken. */
  lemma StoreValidation(rows: seq<Article>, r: StoreRequest, isUrl: string -> bool)
    ensures r.title.Given? && |r.title.value| > MaxTitleLength ==> "title" in StoreErrors(rows, r, isUrl)
    ensures r.slug.Given? && SlugTaken(rows, r.slug.value) ==> "slug" in StoreErrors(rows, r, isUrl)
    ensures !(r.status.Given? && StatusValue(r.status.value)) ==> "status" in StoreErrors(rows, r, isUrl)
    ensures r.generatedFromId.Given? && !HasId(rows, r.generatedFromId.value) ==> "generated_from_id" in StoreErrors(rows, r, isUrl)
    ensures StoreErrors(rows, r, isUrl) == {} ==> Insertable(rows, StoreDraft(r))
  {
    var e := StoreErrors(rows, r, isUrl);
    if e == {} {
      assert "slug" !in e && "status" !in e && "generated_from_id" !in e;
    }
  }

  /** `store`: validate, then create. */
  method Store(t: Table, r: StoreRequest, isUrl: string -> bool, now: int) returns (reply: Reply)
    requires t.Valid()
    modifies t
    ensures t.Valid()
    ensures StoreErrors(old(t.rows), r, isUrl) != {} ==>
              reply == Invalid(StoreErrors(old(t.rows), r, isUrl)) && t.rows == old(t.rows) && t.nextId == old(t.nextId)
    ensures StoreErrors(old(t.rows), r, isUrl) == {} ==>
              && reply.Record? && reply.code == 201
              && reply.data == Materialize(StoreDraft(r), old(t.nextId), now)
              && t.rows == old(t.rows) + [reply.data] && t.nextId == old(t.nextId) + 1
  {
    var errors := StoreErrors(t.rows, r, isUrl);
    if errors != {} {
      return Invalid(errors);
    }
    StoreValidation(t.rows, r, isUrl);
    var d := StoreDraft(r);
    var id := t.Insert(d, now);
    if id.None? {
      return ServerError;
    }
    reply := Record(201, t.rows[|t.rows| - 1]);
  }

  // ---------------------------------------------------------------- update

  /** The fields `update`'s `sometimes` rules refuse: a missing key is never checked, null fails
      the non-nullable rules, and a blank string passes every rule but `required`. */
  function UpdateErrors(rows: seq<Article>, r: UpdateRequest): (errors: set<string>)
    ensures r.title.Absent? && r.originalContent.Absent? && r.status.Absent? && r.generatedFromId.Absent? ==> errors == {}
  {
    (if r.title.Null? || (r.title.Given? && !Blank(r.title.value) && |r.title.value| > MaxTitleLength)
     then {"title"} else {})
    + (if r.originalContent.Null? then {"original_content"} else {})
    + (if r.status.Null? || (r.status.Given? && !Blank(r.status.value) && !StatusValue(r.status.value))
       then {"status"} else {})
    + (if r.generatedFromId.Given? && !HasId(rows, r.generatedFromId.value) then {"generated_from_id"} else {})
  }

  function Supplied<T>(f: Field<T>): Option<T> {
    if f.Given? then Some(f.value) else None
  }

  function SuppliedNullable<T>(f: Field<T>): Option<Option<T>> {
    match f
    case Absent => None
    case Null => Some(None)
    case Given(v) => Some(Some(v))
  }

  /** `$validated`, as the attributes handed to `$article->update`. */
  function UpdateChanges(r: UpdateRequest): Changes {
    Changes(Supplied(r.title), Supplied(r.originalContent), SuppliedNullable(r.generatedContent),
            Supplied(r.status), SuppliedNullable(r.generatedFromId))
  }

  /** A request that passes `update`'s rules is refused by the database exactly when it sends a
      blank `status`, which the rules let through and the enum column does not hold. */
  lemma UpdateValidation(rows: seq<Article>, r: UpdateRequest)
    requires UpdateErrors(rows, r) == {}
    ensures Updatable(rows, UpdateChanges(r)) <==> !(r.status.Given? && Blank(r.status.value))
  {
    assert "status" !in UpdateErrors(rows, r) && "generated_from_id" !in UpdateErrors(rows, r);
    if r.status.Given? {
      BlankIsNoStatus(r.status.value);
    }
  }

  /** Neither status name is blank. */
  lemma BlankIsNoStatus(v: string)
    ensures Blank(v) ==> ParseStatus(v).None?
  {
    if v == "original" || v == "generated" {
      TrimKeepsWord(v);
    }
  }

  lemma TrimKeepsWord(s: string)
    requires s != [] && forall i :: 0 <= i < |s| ==> 'a' <= s[i] <= 'z'
    ensures Trim(s, PhpTrimSet) == s
  {
    assert s[0] !in PhpTrimSet && s[|s| - 1] !in PhpTrimSet;
    assert TrimLeft(s, PhpTrimSet) == s;
    assert TrimRight(s, PhpTrimSet) == s;
  }

  /** `update`: 404 for an unknown id, 422 for a refused field, 500 when the database refuses the
      row, and otherwise the row `id` rewritten with the supplied keys. */
  method Update(t: Table, id: int, r: UpdateRequest, now: int) returns (reply: Reply)
    requires t.Valid()
    modifies t
    ensures t.Valid() && t.nextId == old(t.nextId)
    ensures !HasId(old(t.rows), id) ==> reply == NotFound && t.rows == old(t.rows)
    ensures HasId(old(t.rows), id) && UpdateErrors(old(t.rows), r) != {} ==>
              reply == Invalid(UpdateErrors(old(t.rows), r)) && t.rows == old(t.rows)
    ensures HasId(old(t.rows), id) && UpdateErrors(old(t.rows), r) == {} && r.status.Given? && Blank(r.status.value) ==>
              reply == ServerError && t.rows == old(t.rows)
    ensures HasId(old(t.rows), id) && UpdateErrors(old(t.rows), r) == {} && !(r.status.Given? && Blank(r.status.value)) ==>
              && id >= 0
              && t.rows == Patched(old(t.rows), id, UpdateChanges(r), now)
              && reply.Record? && reply.code == 200 && reply.data in t.rows && reply.data.id == id
  {
    if Find(t.rows, id).None? {
      return NotFound;
    }
    var errors := UpdateErrors(t.rows, r);
    if errors != {} {
      return Invalid(errors);
    }
    UpdateValidation(t.rows, r);
    var ok := t.Update(Find(t.rows, id).value.id, UpdateChanges(r), now);
    if !ok {
      return ServerError;
    }
    ghost var k :| 0 <= k < |old(t.rows)| && old(t.rows)[k].id == id;
    assert t.rows[k] in t.rows && t.rows[k].id == id;
    reply := Record(200, Find(t.rows, id).value);
  }

  /** The only columns an update writes are the supplied ones among title, original_content,
      generated_content, status and generated_from_id (plus `updated_at` when a value changed);
      `id`, `slug`, `original_url` and `created_at` of every row, and every other row, stay. */
  lemma UpdateTouchesOnlySupplied(rows: seq<Article>, id: nat, r: UpdateRequest, now: int)
    requires UpdateErrors(rows, r) == {} && Updatable(rows, UpdateChanges(r))
    ensures var p := Patched(rows, id, UpdateChanges(r), now);
            forall i :: 0 <= i < |rows| ==>
              && p[i].id == rows[i].id && p[i].slug == rows[i].slug
              && p[i].originalUrl == rows[i].originalUrl && p[i].createdAt == rows[i].createdAt
              && (rows[i].id != id ==> p[i] == rows[i])
              && (rows[i].id == id ==>
                    && p[i].title == (if r.title.Given? then r.title.value else rows[i].title)
                    && p[i].originalContent == (if r.originalContent.Given? then r.originalContent.value else rows[i].originalContent)
                    && p[i].generatedContent == (match r.generatedContent
                                                 case Absent => rows[i].generatedContent
                                                 case Null => None
                                                 case Given(v) => Some(v))
                    && StatusName(p[i].status) == (if r.status.Given? then r.status.value else StatusName(rows[i].status))
                    && (r.generatedFromId.Absent? ==> p[i].generatedFromId == rows[i].generatedFromId)
                    && (r.generatedFromId.Null? ==> p[i].generatedFromId == None)
                    && (r.generatedFromId.Given? ==> p[i].generatedFromId.Some? && p[i].generatedFromId.value == r.generatedFromId.value))
  {
  }

  // ---------------------------------------------------------------- destroy

  /** `destroy`: 404 for an unknown id, otherwise the row is deleted. */
  method Destroy(t: Table, id: int) returns (reply: Reply)
    requires t.Valid()
    modifies t
    ensures t.Valid() && t.nextId == old(t.nextId)
    ensures !HasId(old(t.rows), id) ==> reply == NotFound && t.rows == old(t.rows)
    ensures HasId(old(t.rows), id) ==> id >= 0 && reply == Removed && t.rows == Deleted(old(t.rows), id)
  {
    var found := Find(t.rows, id);
    if found.None? {
      return NotFound;
    }
    t.Delete(found.value.id);
    reply := Removed;
  }
}
