/**
 * The read side of `UsersController`: `Get` (search, order by handle, page)
 * and `GetById`. Both read through the global query filter, so only active
 * users are ever listed or found.
 */
module Listing {
  import opened Wrappers
  import opened Numeric
  import opened Text
  import opened Entities
  import opened Db
  import opened Dtos
  import opened Http

  /**
   * The search clause: a missing or blank term filters nothing; otherwise
   * the trimmed, lower-cased term must occur in the lower-cased handle or
   * the lower-cased e-mail.
   */
  predicate Matches(u: Usuario, search: Option<string>) {
    || IsNullOrWhiteSpace(search)
    || var term := ToLower(Trim(search.value));
       Contains(ToLower(u.usuario), term) || Contains(ToLower(u.email), term)
  }

  /** The ids the listing query selects: active rows that match the search. */
  function Filtered(users: UserTable, search: Option<string>): set<int> {
    set id | id in users && users[id].ativo && Matches(users[id], search)
  }

  /** A blank search lists every active user. */
  lemma BlankSearchSelectsAllVisible(users: UserTable, search: Option<string>, id: int)
    requires IsNullOrWhiteSpace(search)
    ensures id in Filtered(users, search) <==> Visible(users, id)
  {
  }

  /** Lower-casing never turns an all-white-space string into one that is not, or back. */
  lemma AllWhiteSpaceToLower(s: string)
    ensures AllWhiteSpace(ToLower(s)) == AllWhiteSpace(s)
  {
    ToLowerAt(s);
    forall i | 0 <= i < |s| ensures IsWhiteSpace(ToLower(s)[i]) == IsWhiteSpace(s[i]) {
      ToLowerCharKeepsWhiteSpace(s[i]);
    }
  }

  /** Lower-casing the term does not change whether a user matches. */
  lemma MatchesIgnoresCase(u: Usuario, s: string)
    ensures Matches(u, Some(ToLower(s))) == Matches(u, Some(s))
  {
    AllWhiteSpaceToLower(s);
    TrimToLowerCommute(s);
    ToLowerIdempotent(Trim(s));
  }

  /** The search is case-insensitive: lower-casing the term selects the same users. */
  lemma SearchIgnoresCase(users: UserTable, s: string)
    ensures Filtered(users, Some(ToLower(s))) == Filtered(users, Some(s))
  {
    forall id | id in users ensures Matches(users[id], Some(ToLower(s))) == Matches(users[id], Some(s)) {
      MatchesIgnoresCase(users[id], s);
    }
  }

  /** Trimming the term does not change whether a user matches. */
  lemma MatchesIgnoresSurroundingWhiteSpace(u: Usuario, s: string)
    ensures Matches(u, Some(Trim(s))) == Matches(u, Some(s))
  {
    TrimIdempotent(s);
    TrimShape(s);
    TrimShape(Trim(s));
  }

  /** White space around the term does not change what the search selects. */
  lemma SearchIgnoresSurroundingWhiteSpace(users: UserTable, s: string)
    ensures Filtered(users, Some(Trim(s))) == Filtered(users, Some(s))
  {
    forall id | id in users ensures Matches(users[id], Some(Trim(s))) == Matches(users[id], Some(s)) {
      MatchesIgnoresSurroundingWhiteSpace(users[id], s);
    }
  }

  /** The listing order: by handle, ordinally; rows with equal handles by id. */
  predicate KeyLess(users: UserTable, a: int, b: int)
    requires a in users && b in users
  {
    Less(users[a].usuario, users[b].usuario) || (users[a].usuario == users[b].usuario && a < b)
  }

  lemma KeyLessIrreflexive(users: UserTable, a: int)
    requires a in users
    ensures !KeyLess(users, a, a)
  {
    LessIrreflexive(users[a].usuario);
  }

  lemma KeyLessTransitive(users: UserTable, a: int, b: int, c: int)
    requires a in users && b in users && c in users
    requires KeyLess(users, a, b) && KeyLess(users, b, c)
    ensures KeyLess(users, a, c)
  {
    if Less(users[a].usuario, users[b].usuario) && Less(users[b].usuario, users[c].usuario) {
      LessTransitive(users[a].usuario, users[b].usuario, users[c].usuario);
    }
  }

  lemma KeyLessAsymmetric(users: UserTable, a: int, b: int)
    requires a in users && b in users
    ensures !(KeyLess(users, a, b) && KeyLess(users, b, a))
  {
    KeyLessIrreflexive(users, a);
    if KeyLess(users, a, b) && KeyLess(users, b, a) {
      KeyLessTransitive(users, a, b, a);
    }
  }

  lemma KeyLessTotal(users: UserTable, a: int, b: int)
    requires a in users && b in users && a != b
    ensures KeyLess(users, a, b) || KeyLess(users, b, a)
  {
    LessTotal(users[a].usuario, users[b].usuario);
  }

  /** `s` lists rows of `users` in strictly ascending listing order. */
  predicate SortedByHandle(users: UserTable, s: seq<int>) {
    && (forall i | 0 <= i < |s| :: s[i] in users)
    && (forall i, j | 0 <= i < j < |s| :: KeyLess(users, s[i], s[j]))
  }

  /** `m` comes first among `ids` in listing order. */
  predicate IsFirst(users: UserTable, ids: set<int>, m: int)
    requires ids <= users.Keys
  {
    m in ids && forall x | x in ids && x != m :: KeyLess(users, m, x)
  }

  /** A set with no element is empty. */
  lemma NoElementMeansEmpty(ids: set<int>)
    ensures (forall y :: y !in ids) ==> ids == {}
  {
    if forall y :: y !in ids { assert ids == {}; }
  }

  lemma {:induction false} FirstExists(users: UserTable, ids: set<int>)
    requires ids != {} && ids <= users.Keys
    ensures exists m :: IsFirst(users, ids, m)
    decreases |ids|
  {
    NoElementMeansEmpty(ids);
    var y :| y in ids;
    if ids != {y} {
      var rest := ids - {y};
      FirstExists(users, rest);
      var m :| IsFirst(users, rest, m);
      KeyLessTotal(users, m, y);
      if KeyLess(users, m, y) {
        assert IsFirst(users, ids, m);
      } else {
        forall x | x in ids && x != y ensures KeyLess(users, y, x) {
          if x != m { KeyLessTransitive(users, y, m, x); }
        }
        assert IsFirst(users, ids, y);
      }
    } else {
      assert IsFirst(users, ids, y);
    }
  }

  /** Putting the first of `ids` in front of a listing of the others lists all of `ids`. */
  lemma FirstThenRest(users: UserTable, ids: set<int>, m: int, rest: seq<int>)
    requires ids <= users.Keys && IsFirst(users, ids, m)
    requires |rest| == |ids - {m}| && (forall id :: id in rest <==> id in ids - {m}) && SortedByHandle(users, rest)
    ensures |[m] + rest| == |ids|
    ensures forall id :: id in [m] + rest <==> id in ids
    ensures SortedByHandle(users, [m] + rest)
  {
    var s := [m] + rest;
    forall i, j | 0 <= i < j < |s| ensures KeyLess(users, s[i], s[j]) {
      if i > 0 {
        assert s[i] == rest[i - 1] && s[j] == rest[j - 1];
      } else {
        assert s[j] == rest[j - 1];
        assert s[j] in rest;
      }
    }
  }

  /** `OrderBy(u => u.usuario)`: the ids in `ids`, each once, in listing order. */
  ghost function OrderByHandle(users: UserTable, ids: set<int>): (s: seq<int>)
    requires ids <= users.Keys
    ensures |s| == |ids|
    ensures forall id :: id in s <==> id in ids
    ensures SortedByHandle(users, s)
    decreases |ids|
  {
    if ids == {} then []
    else
      FirstExists(users, ids);
      var m :| IsFirst(users, ids, m);
      var rest := OrderByHandle(users, ids - {m});
      FirstThenRest(users, ids, m, rest);
      [m] + rest
  }

  /** A sequence with no element is empty. */
  lemma NoElementMeansEmptySeq(s: seq<int>)
    ensures (forall id :: id !in s) ==> s == []
  {
    if s != [] {
      var head := s[0];
      assert head in s;
    }
  }

  /** The tail of a sorted sequence holds every element but the head. */
  lemma SortedTail(users: UserTable, s: seq<int>)
    requires SortedByHandle(users, s) && s != []
    ensures forall id :: id in s[1..] <==> id in s && id != s[0]
  {
    KeyLessIrreflexive(users, s[0]);
    forall id | id in s[1..] ensures id != s[0] {
      var k :| 1 <= k < |s| && s[k] == id;
      assert KeyLess(users, s[0], s[k]);
    }
    forall id | id in s && id != s[0] ensures id in s[1..] {
      var k :| 0 <= k < |s| && s[k] == id;
      assert s[1..][k - 1] == id;
    }
  }

  /** Listing order leaves no choice: a sorted sequence is fixed by the set of ids it lists. */
  lemma {:induction false} SortedEnumerationUnique(users: UserTable, s: seq<int>, t: seq<int>)
    requires SortedByHandle(users, s) && SortedByHandle(users, t)
    requires forall id :: id in s <==> id in t
    ensures s == t
  {
    if s != [] {
      var head := s[0];
      assert head in s;
      assert head in t;
      var head' := t[0];
      assert head' in t;
      var i :| 0 <= i < |t| && t[i] == s[0];
      var j :| 0 <= j < |s| && s[j] == t[0];
      KeyLessAsymmetric(users, s[0], t[0]);
      assert s[0] == t[0];
      SortedTail(users, s);
      SortedTail(users, t);
      SortedEnumerationUnique(users, s[1..], t[1..]);
      assert s == [s[0]] + s[1..] && t == [t[0]] + t[1..];
    } else {
      NoElementMeansEmptySeq(t);
    }
  }

  /** The offset `Skip` receives: `(page - 1) * pageSize` in unchecked 32-bit arithmetic. */
  function Offset(page: Int32, pageSize: Int32): Int32 {
    Wrap32(Wrap32(page - 1) * pageSize)
  }

  /** A user as the listing and `GetById` show it, row version included. */
  function Summary(u: Usuario): UserSummary {
    UserSummary(u.id, u.usuario, u.email, u.ativo, Some(u.rowVersion))
  }

  /** `Skip(offset).Take(count)` on a sequence, for a non-negative offset and a positive count. */
  function Window<T>(s: seq<T>, offset: nat, count: nat): (w: seq<T>)
    ensures |w| <= count
    ensures offset < |s| ==> |w| == if offset + count <= |s| then count else |s| - offset
    ensures forall i | 0 <= i < |w| :: offset + i < |s| && w[i] == s[offset + i]
  {
    if offset >= |s| then [] else if offset + count <= |s| then s[offset..offset + count] else s[offset..]
  }

  /** The ids of `ids` that one page shows: `count` of them from `offset` on, in listing order. */
  ghost function Listed(users: UserTable, ids: set<int>, offset: nat, count: nat): (w: seq<int>)
    requires ids <= users.Keys
    ensures |w| <= count
    ensures offset < |ids| ==> |w| == if offset + count <= |ids| then count else |ids| - offset
    ensures forall i | 0 <= i < |w| :: w[i] in ids
    ensures SortedByHandle(users, w)
  {
    var ordered := OrderByHandle(users, ids);
    var w := Window(ordered, offset, count);
    assert forall i | 0 <= i < |w| :: w[i] == ordered[offset + i] && ordered[offset + i] in ids;
    assert forall i, j | 0 <= i < j < |w| :: KeyLess(users, w[i], w[j]);
    w
  }

  /** The summaries of the rows `ids` names, in the same order. */
  function Summaries(users: UserTable, ids: seq<int>): (items: seq<UserSummary>)
    requires KeyedById(users) && forall i | 0 <= i < |ids| :: ids[i] in users
    ensures |items| == |ids|
    ensures forall i | 0 <= i < |ids| :: items[i].id == ids[i] && items[i] == Summary(users[ids[i]])
  {
    seq(|ids|, i requires 0 <= i < |ids| => Summary(users[ids[i]]))
  }

  /**
   * `Get`: the page of active matching users in listing order. SQL Server
   * refuses a negative `OFFSET` and a `FETCH` of no rows, so those pages end
   * in an error.
   */
  ghost function Get(users: UserTable, page: Int32, pageSize: Int32, search: Option<string>): (r: Response<PagedResult<UserSummary>>)
    requires KeyedById(users)
    ensures r.Ok? || r.ServerError?
    ensures r.ServerError? <==> Offset(page, pageSize) < 0 || pageSize <= 0
    ensures r.Ok? ==>
              && r.body.total == |Filtered(users, search)|
              && r.body.page == page && r.body.pageSize == pageSize
              && |r.body.items| <= pageSize
              && (Offset(page, pageSize) < r.body.total ==>
                    |r.body.items| == if Offset(page, pageSize) + pageSize <= r.body.total then pageSize as int
                                      else r.body.total - Offset(page, pageSize))
    ensures r.Ok? ==> forall i | 0 <= i < |r.body.items| ::
              && r.body.items[i].id in Filtered(users, search)
              && r.body.items[i] == Summary(users[r.body.items[i].id])
    ensures r.Ok? ==> forall i, j | 0 <= i < j < |r.body.items| ::
              r.body.items[i].id in users && r.body.items[j].id in users && KeyLess(users, r.body.items[i].id, r.body.items[j].id)
  {
    var offset, ids := Offset(page, pageSize), Filtered(users, search);
    if offset < 0 || pageSize <= 0 then ServerError
    else Ok(PagedResult(Summaries(users, Listed(users, ids, offset, pageSize)), |ids|, page, pageSize))
  }

  /** `GetById`: the summary of an active user, and `NotFound` for a missing or inactive one. */
  function GetById(users: UserTable, id: int): (r: Response<UserSummary>)
    requires KeyedById(users)
    ensures r.Ok? || r.NotFound?
    ensures r.Ok? <==> Visible(users, id)
    ensures r.Ok? ==> r.body.id == id && r.body.ativo && r.body.rowVersion == Some(users[id].rowVersion)
    ensures r.Ok? ==> r.body.usuario == users[id].usuario && r.body.email == users[id].email
  {
    if Visible(users, id) then Ok(Summary(users[id])) else NotFound
  }

  /** Every user a page lists is found by `GetById`, with the same summary. */
  lemma GetItemsAgreeWithGetById(users: UserTable, page: Int32, pageSize: Int32, search: Option<string>, i: nat)
    requires KeyedById(users)
    requires Get(users, page, pageSize, search).Ok? && i < |Get(users, page, pageSize, search).body.items|
    ensures var item := Get(users, page, pageSize, search).body.items[i];
            GetById(users, item.id) == Ok(item)
  {
  }

  /**
   * A page is the window at `Offset(page, pageSize)` of the one sorted
   * listing of the active matching users, however that listing is
   * obtained.
   */
  lemma GetIsWindowOfListing(users: UserTable, page: Int32, pageSize: Int32, search: Option<string>, listing: seq<int>, i: nat)
    requires KeyedById(users)
    requires SortedByHandle(users, listing) && forall id :: id in listing <==> id in Filtered(users, search)
    requires Get(users, page, pageSize, search).Ok? && i < |Get(users, page, pageSize, search).body.items|
    ensures Offset(page, pageSize) + i < |listing|
    ensures Get(users, page, pageSize, search).body.items[i].id == listing[Offset(page, pageSize) + i]
  {
    SortedEnumerationUnique(users, listing, OrderByHandle(users, Filtered(users, search)));
  }

  /** Pages whose windows do not overlap never list the same user twice. */
  lemma PagesDisjoint(users: UserTable, search: Option<string>, pageSize: Int32, p: Int32, q: Int32, i: nat, j: nat)
    requires KeyedById(users)
    requires Get(users, p, pageSize, search).Ok? && Get(users, q, pageSize, search).Ok?
    requires Offset(p, pageSize) + pageSize <= Offset(q, pageSize)
    requires i < |Get(users, p, pageSize, search).body.items| && j < |Get(users, q, pageSize, search).body.items|
    ensures Get(users, p, pageSize, search).body.items[i].id != Get(users, q, pageSize, search).body.items[j].id
  {
    var listing := OrderByHandle(users, Filtered(users, search));
    GetIsWindowOfListing(users, p, pageSize, search, listing, i);
    GetIsWindowOfListing(users, q, pageSize, search, listing, j);
    KeyLessIrreflexive(users, listing[Offset(p, pageSize) + i]);
  }

  /** While `(page - 1) * pageSize` fits in an `int`, the offset is that plain product. */
  lemma OffsetWithoutOverflow(page: Int32, pageSize: Int32)
    requires 1 <= page && 0 < pageSize && (page - 1) * pageSize < 0x8000_0000
    ensures Offset(page, pageSize) == (page - 1) * pageSize
  {
  }

  lemma DivisionBounds(k: nat, d: int)
    requires 0 < d
    ensures 0 <= k / d <= k
    ensures 0 <= (k / d) * d <= k < (k / d) * d + d
  {
    var q, r := k / d, k % d;
    assert k == q * d + r && 0 <= r < d;
    MulMonotone(q, d);
  }

  lemma {:induction false} MulMonotone(q: nat, d: int)
    requires 0 < d
    ensures q <= q * d
  {
    if q > 0 { MulMonotone(q - 1, d); }
  }

  /** The page that holds position `k` of the listing. */
  lemma PageOfPosition(k: nat, pageSize: Int32) returns (page: Int32)
    requires 0 < pageSize && k < 0x7fff_ffff
    ensures 0 <= Offset(page, pageSize) <= k < Offset(page, pageSize) + pageSize
  {
    var before := k / pageSize;
    DivisionBounds(k, pageSize);
    page := before + 1;
    OffsetWithoutOverflow(page, pageSize);
  }

  /** A page whose window starts at or before position `k` of the listing, and ends after it, holds that position. */
  lemma PageHoldsPosition(users: UserTable, search: Option<string>, page: Int32, pageSize: Int32, k: nat)
    requires KeyedById(users)
    requires 0 <= Offset(page, pageSize) <= k < Offset(page, pageSize) + pageSize
    requires k < |Filtered(users, search)|
    ensures Get(users, page, pageSize, search).Ok?
    ensures k - Offset(page, pageSize) < |Get(users, page, pageSize, search).body.items|
  {
    var r := Get(users, page, pageSize, search);
    assert r.Ok?;
    assert Offset(page, pageSize) < r.body.total;
  }

  /**
   * Paging reaches every active matching user: with a positive page size
   * and fewer than 2^31 matches, some page lists it.
   */
  lemma EveryMatchIsListed(users: UserTable, search: Option<string>, pageSize: Int32, id: int) returns (page: Int32, i: nat)
    requires KeyedById(users)
    requires 0 < pageSize && |Filtered(users, search)| < 0x8000_0000
    requires id in Filtered(users, search)
    ensures Get(users, page, pageSize, search).Ok?
    ensures i < |Get(users, page, pageSize, search).body.items|
    ensures Get(users, page, pageSize, search).body.items[i].id == id
  {
    var listing := OrderByHandle(users, Filtered(users, search));
    assert id in listing;
    var k :| 0 <= k < |listing| && listing[k] == id;
    page := PageOfPosition(k, pageSize);
    PageHoldsPosition(users, search, page, pageSize, k);
    i := k - Offset(page, pageSize);
    GetIsWindowOfListing(users, page, pageSize, search, listing, i);
  }
}
